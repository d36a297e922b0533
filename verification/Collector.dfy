/** The passes of the mark-compact collector over a copy of the heap. */
module Collector {
  import opened Wrappers
  import opened Words
  import opened HeapLayout
  import opened Sliding
  import opened Collection
  import opened Marking

  // ---- Marking all roots -------------------------------------------------------------------

  /** `m` is what tracing `roots` leaves, starting from no marks at all. */
  ghost predicate Traced(mem: seq<Word>, own: seq<nat>, roots: seq<Word>, m: seq<bool>) {
    && |m| == |own| <= |mem| && (forall i :: 0 <= i < |own| ==> own[i] < |own|)
    && (forall i {:trigger own[i]} :: 0 <= i < |m| ==> m[i] == m[own[i]])
    && (forall i {:trigger Held(m, mem[i])} :: 0 <= i < |m| && m[i] && own[i] != i ==> Held(m, mem[i]))
    && (forall i {:trigger own[i]} :: 0 <= i < |m| && m[i] ==> Reachable(mem, roots, own[i]))
    && (forall r :: r in roots ==> Held(m, r))
  }

  lemma RootTraced(mem: seq<Word>, own: seq<nat>, roots: seq<Word>, m: seq<bool>, m': seq<bool>, r: Word)
    requires Traced(mem, own, roots, m) && MarkedFrom(mem, own, m, m', r)
    ensures Traced(mem, own, roots + [r], m')
  {
    hide Tag, ReachFrom;
    var roots' := roots + [r];
    forall i | 0 <= i < |m|
      ensures m'[i] == m'[own[i]]
      ensures m'[i] && own[i] != i ==> Held(m', mem[i])
      ensures m'[i] ==> Reachable(mem, roots', own[i])
    {
      assert Explained(mem, own, m, m', i);
      if m[i] {
        if own[i] != i {
          assert Held(m, mem[i]);
        }
        var q: Word :| q in roots && ReachFrom(mem, q, own[i]);
        assert q in roots';
      } else if m'[i] {
        assert r in roots';
      }
    }
    forall q | q in roots' ensures Held(m', q) {
      if q in roots {
        assert Held(m, q);
      }
    }
  }

  lemma {:induction false} ClosedUnderPaths(mem: seq<Word>, hp: nat, own: seq<nat>, roots: seq<Word>, m: seq<bool>,
                                            w: Word, path: seq<nat>)
    requires Layout(mem, hp, own) && FieldsOk(mem, own) && TermOk(mem, own, w)
    requires Traced(mem, own, roots, m) && Held(m, w)
    ensures var r := Follow(mem, w, path); r.Some? ==> Held(m, r.value)
    decreases |path|
  {
    hide Size, Reachable;
    if path != [] && Follow(mem, w, path).Some? {
      var i := Addr(w) + path[0];
      SameObject(mem, hp, own, Addr(w), i);
      assert TermOk(mem, own, mem[i]) && Held(m, mem[i]);
      ClosedUnderPaths(mem, hp, own, roots, m, mem[i], path[1..]);
    }
  }

  /** A word is marked exactly when it belongs to an object reachable from a root. */
  lemma TracedIsLive(mem: seq<Word>, hp: nat, own: seq<nat>, roots: seq<Word>, m: seq<bool>)
    requires WellFormedBy(mem, hp, roots, own) && Traced(mem, own, roots, m)
    ensures m == LiveBits(mem, hp, roots)
  {
    hide Tag, Size, Reachable, TermOk;
    forall i | 0 <= i < hp ensures m[i] == LiveWord(mem, roots, i) {
      LiveIffOwnerReachable(mem, hp, roots, own, i);
      if Reachable(mem, roots, own[i]) {
        var n, path := ReachingRoot(mem, roots, own[i]);
        assert roots[n] in roots;
        ClosedUnderPaths(mem, hp, own, roots, m, roots[n], path);
      }
    }
  }

  /** Step 1: collect the roots and mark what they reach. */
  method MarkRoots(roots: seq<Word>, bits: GcMarkBits, fromSpace: seq<Word>, ghost own: seq<nat>)
    returns (rootTerms: seq<Word>)
    requires roots == [] || WellFormedBy(fromSpace, bits.marks.Length, roots, own)
    requires forall i :: 0 <= i < bits.marks.Length ==> !bits.marks[i]
    modifies bits.marks
    ensures rootTerms == roots
    ensures bits.marks[..] == LiveBits(fromSpace, bits.marks.Length, roots)
  {
    hide Tag, Size, Reachable, MarkedFrom, TermOk, LiveWord, Traced;
    rootTerms := [];
    if roots == [] {
      NothingReachable(fromSpace, bits.marks.Length);
      return;
    }
    NothingTraced(fromSpace, bits.marks.Length, own, bits.marks[..]);
    for i := 0 to |roots|
      invariant rootTerms == roots[..i]
      invariant Traced(fromSpace, own, rootTerms, bits.marks[..])
    {
      ghost var m, done := bits.marks[..], rootTerms;
      assert roots[i] in roots;
      rootTerms := rootTerms + [roots[i]];
      MarkTermGc(roots[i], bits, fromSpace, own);
      RootTraced(fromSpace, own, done, m, bits.marks[..], roots[i]);
    }
    assert rootTerms == roots;
    TracedIsLive(fromSpace, bits.marks.Length, own, roots, bits.marks[..]);
  }

  /** Without roots no word is live, whatever is on the heap. */
  lemma NothingReachable(mem: seq<Word>, hp: nat)
    ensures forall i :: 0 <= i < hp ==> !LiveBits(mem, hp, [])[i]
  {
  }

  lemma LiveMeansRoots(mem: seq<Word>, hp: nat, roots: seq<Word>)
    requires Rank(LiveBits(mem, hp, roots), hp) != 0
    ensures roots != []
  {
    if roots == [] {
      NothingReachable(mem, hp);
      RankOfGap(LiveBits(mem, hp, roots), 0, hp);
    }
  }

  lemma NothingTraced(mem: seq<Word>, hp: nat, own: seq<nat>, m: seq<bool>)
    requires Layout(mem, hp, own) && |m| == hp && forall i :: 0 <= i < hp ==> !m[i]
    ensures Traced(mem, own, [], m)
  {
    hide Size, Tag;
  }

  /** Counts the marked words among the first `usedWords`. */
  method CountLive(bits: GcMarkBits, usedWords: nat) returns (live: nat)
    requires usedWords == bits.marks.Length
    ensures live == Rank(bits.marks[..], usedWords)
  {
    live := 0;
    for i := 0 to usedWords
      invariant live == Rank(bits.marks[..], i)
    {
      if bits.Get(i) {
        live := live + 1;
      }
    }
  }

  // ---- Forwarding --------------------------------------------------------------------------

  /** The forwarding table of a set of live words: live object starts get their rank. */
  ghost predicate ForwardTable(own: seq<nat>, live: seq<bool>, forward: seq<Option<nat>>) {
    && |forward| == |live| == |own|
    && forall i :: 0 <= i < |own| ==>
        forward[i] == if own[i] == i && live[i] then Some(Rank(live, i)) else None
  }

  /** No live object starts below `idx` and ends above it. */
  ghost predicate NoStraddle(mem: seq<Word>, own: seq<nat>, live: seq<bool>, idx: nat)
    requires |own| == |live| <= |mem| && forall i :: 0 <= i < |own| ==> own[i] < |own|
  {
    forall i :: 0 <= i < |own| && live[i] && own[i] < idx ==> own[i] + Size(mem[own[i]]) <= idx
  }

  /** At a live word the walk stands on an object start, and may step over the whole object. */
  lemma WalkLive(mem: seq<Word>, hp: nat, own: seq<nat>, roots: seq<Word>, live: seq<bool>, idx: nat)
    requires Layout(mem, hp, own) && Marks(mem, own, roots, live) && NoStraddle(mem, own, live, idx)
    requires idx < hp && live[idx]
    ensures own[idx] == idx && Size(mem[idx]) >= 1 && idx + Size(mem[idx]) <= hp
    ensures NoStraddle(mem, own, live, idx + Size(mem[idx]))
    ensures Rank(live, idx + Size(mem[idx])) == Rank(live, idx) + Size(mem[idx])
    ensures forall i :: idx <= i < idx + Size(mem[idx]) ==> own[i] == idx && live[i]
  {
    hide Size, Reachable, Held, Tag, Rank;
    SameObject(mem, hp, own, idx, idx);
    ObjectMovesWhole(mem, hp, own, roots, live, idx, Size(mem[idx]));
    forall i | 0 <= i < hp && live[i] && own[i] < idx + Size(mem[idx])
      ensures own[i] + Size(mem[own[i]]) <= idx + Size(mem[idx])
    {
      SameObject(mem, hp, own, i, own[i]);
      if idx <= own[i] {
        SameObject(mem, hp, own, idx, own[i]);
      }
    }
    forall i | idx <= i < idx + Size(mem[idx]) ensures own[i] == idx && live[i] {
      SameObject(mem, hp, own, idx, i);
    }
  }

  lemma WalkDead(mem: seq<Word>, hp: nat, own: seq<nat>, roots: seq<Word>, live: seq<bool>, idx: nat)
    requires Layout(mem, hp, own) && Marks(mem, own, roots, live) && NoStraddle(mem, own, live, idx)
    requires idx < hp && !live[idx]
    ensures NoStraddle(mem, own, live, idx + 1) && Rank(live, idx + 1) == Rank(live, idx)
  {
    hide Size, Reachable, Held, Tag;
  }

  /** Step 2: the forwarding table and the new heap pointer. */
  method BuildForward(bits: GcMarkBits, fromSpace: seq<Word>, usedWords: nat,
                      ghost own: seq<nat>, ghost roots: seq<Word>)
    returns (table: seq<Option<nat>>, newHp: nat)
    requires usedWords == bits.marks.Length && Layout(fromSpace, usedWords, own)
    requires Marks(fromSpace, own, roots, bits.marks[..])
    ensures ForwardTable(own, bits.marks[..], table) && newHp == Rank(bits.marks[..], usedWords)
  {
    hide Tag, Size, Marks, Layout, Rank;
    ghost var live := bits.marks[..];
    var forward := new Option<nat>[usedWords](_ => None);
    newHp := 0;
    var idx := 0;
    RankZero(live);
    LayoutRange(fromSpace, usedWords, own);
    while idx < usedWords
      invariant idx <= usedWords && newHp == Rank(live, idx) && NoStraddle(fromSpace, own, live, idx)
      invariant forall i :: 0 <= i < idx ==> forward[i] == if own[i] == i && live[i] then Some(Rank(live, i)) else None
      invariant forall i :: idx <= i < usedWords ==> forward[i] == None
    {
      if bits.Get(idx) {
        WalkLive(fromSpace, usedWords, own, roots, live, idx);
        forward[idx] := Some(newHp);
        var size := Size(fromSpace[idx]);
        newHp := newHp + size;
        idx := idx + size;
      } else {
        WalkDead(fromSpace, usedWords, own, roots, live, idx);
        idx := idx + 1;
      }
    }
    table := forward[..];
  }

  lemma RankZero(live: seq<bool>)
    ensures Rank(live, 0) == 0
  {
  }

  lemma LayoutRange(mem: seq<Word>, hp: nat, own: seq<nat>)
    requires Layout(mem, hp, own)
    ensures |own| == hp <= |mem| && forall i :: 0 <= i < hp ==> own[i] <= i
  {
  }

  // ---- Updating references -----------------------------------------------------------------

  function GetForwardedAddr(ptrWord: Word, forward: seq<Option<nat>>): Option<nat> {
    if IsPtr(ptrWord) && Addr(ptrWord) < |forward| then forward[Addr(ptrWord)] else None
  }

  /** `(new_addr << 3) | (old_word & 0b111)`. */
  function UpdatePointerWord(oldWord: Word, newAddr: nat): Word {
    (newAddr % TWO_61) * 8 + oldWord % 8
  }

  function Forwarded(w: Word, forward: seq<Option<nat>>): Word {
    match GetForwardedAddr(w, forward)
    case Some(a) => UpdatePointerWord(w, a)
    case None => w
  }

  lemma ForwardedIsRelocated(mem: seq<Word>, own: seq<nat>, live: seq<bool>, forward: seq<Option<nat>>, w: Word)
    requires |own| <= |mem| && ForwardTable(own, live, forward) && TermOk(mem, own, w)
    ensures Forwarded(w, forward) == Relocated(live, w)
  {
  }

  /** The words of the live objects with every field forwarded; everything else as it was. */
  ghost predicate Updated(mem: seq<Word>, own: seq<nat>, live: seq<bool>, upTo: nat, mem': seq<Word>)
    requires |own| == |live| <= |mem|
  {
    && |mem'| == |mem|
    && forall i :: 0 <= i < |mem| ==>
        mem'[i] == if i < upTo && i < |own| && live[i] && own[i] != i then Relocated(live, mem[i]) else mem[i]
  }

  /** Forwards one field of a live object in place. */
  method UpdateWord(fromSpace: array<Word>, i: nat, forward: seq<Option<nat>>,
                    ghost mem: seq<Word>, ghost own: seq<nat>, ghost live: seq<bool>)
    requires |own| == |live| <= |mem| && FieldsOk(mem, own) && ForwardTable(own, live, forward)
    requires i < |own| && live[i] && own[i] != i && Updated(mem, own, live, i, fromSpace[..])
    modifies fromSpace
    ensures Updated(mem, own, live, i + 1, fromSpace[..])
  {
    hide Tag, Rank;
    assert TermOk(mem, own, mem[i]);
    ForwardedIsRelocated(mem, own, live, forward, mem[i]);
    match GetForwardedAddr(fromSpace[i], forward) {
      case Some(newAddr) => fromSpace[i] := UpdatePointerWord(fromSpace[i], newAddr);
      case None =>
    }
  }

  lemma SkipUpdate(mem: seq<Word>, own: seq<nat>, live: seq<bool>, i: nat, j: nat, mem': seq<Word>)
    requires |own| == |live| <= |mem| && Updated(mem, own, live, i, mem') && i <= j <= |own|
    requires forall k :: i <= k < j ==> !live[k] || own[k] == k
    ensures Updated(mem, own, live, j, mem')
  {
    hide Relocated;
  }

  /** Step 3: walk the live objects and forward their fields. */
  method UpdateReferences(fromSpace: array<Word>, bits: GcMarkBits, forward: seq<Option<nat>>, usedWords: nat,
                          ghost own: seq<nat>, ghost roots: seq<Word>)
    requires usedWords == bits.marks.Length && Layout(fromSpace[..], usedWords, own) && FieldsOk(fromSpace[..], own)
    requires Marks(fromSpace[..], own, roots, bits.marks[..]) && ForwardTable(own, bits.marks[..], forward)
    modifies fromSpace
    ensures Updated(old(fromSpace[..]), own, bits.marks[..], usedWords, fromSpace[..])
  {
    hide Tag, Size, Marks, Layout, Rank, FieldsOk, ForwardTable;
    ghost var live, mem := bits.marks[..], fromSpace[..];
    LayoutRange(mem, usedWords, own);
    var idx := 0;
    while idx < usedWords
      invariant idx <= usedWords && NoStraddle(mem, own, live, idx)
      invariant Updated(mem, own, live, idx, fromSpace[..])
    {
      hide Updated, NoStraddle;
      if bits.Get(idx) {
        WalkLive(mem, usedWords, own, roots, live, idx);
        HeaderKind(mem, usedWords, own, idx);
        HeaderKept(mem, own, live, idx, fromSpace[..], idx);
        SkipUpdate(mem, own, live, idx, idx + 1, fromSpace[..]);
        var header := fromSpace[idx];
        if Tag(header) == Cons {
          UpdateWord(fromSpace, idx + 1, forward, mem, own, live);
          UpdateWord(fromSpace, idx + 2, forward, mem, own, live);
          idx := idx + 3;
        } else {
          var size := SizeField(header);
          for i := 1 to size
            invariant Updated(mem, own, live, idx + i, fromSpace[..])
          {
            UpdateWord(fromSpace, idx + i, forward, mem, own, live);
          }
          idx := idx + size;
        }
      } else {
        WalkDead(mem, usedWords, own, roots, live, idx);
        SkipUpdate(mem, own, live, idx, idx + 1, fromSpace[..]);
        idx := idx + 1;
      }
    }
  }

  lemma HeaderKind(mem: seq<Word>, hp: nat, own: seq<nat>, p: nat)
    requires Layout(mem, hp, own) && p < hp && own[p] == p
    ensures Tag(mem[p]) == Cons ==> Size(mem[p]) == 3
    ensures Tag(mem[p]) != Cons ==> Tag(mem[p]) == Tuple && Size(mem[p]) == SizeField(mem[p]) >= 1
  {
    assert own[p] == p;
  }

  // ---- Compaction --------------------------------------------------------------------------

  lemma RanksWithin(mem: seq<Word>, hp: nat, own: seq<nat>, roots: seq<Word>, live: seq<bool>, idx: nat)
    requires Layout(mem, hp, own) && Marks(mem, own, roots, live) && idx < hp && own[idx] == idx && live[idx]
    requires idx + Size(mem[idx]) <= hp
    ensures forall i :: idx <= i < idx + Size(mem[idx]) ==> Rank(live, i) == Rank(live, idx) + (i - idx)
  {
    hide Size, Rank;
    forall i | idx <= i < idx + Size(mem[idx]) ensures Rank(live, i) == Rank(live, idx) + (i - idx) {
      ObjectMovesWhole(mem, hp, own, roots, live, idx, i - idx);
    }
  }

  /** `to[at..at + n].copy_from_slice(&from[start..start + n])`. */
  method CopySlice(to: array<Word>, at: nat, from: array<Word>, start: nat, n: nat)
    requires to != from && at + n <= to.Length && start + n <= from.Length
    modifies to
    ensures forall i :: 0 <= i < to.Length ==> to[i] == if at <= i < at + n then from[start + (i - at)] else old(to[i])
  {
    forall k | 0 <= k < n {
      to[at + k] := from[start + k];
    }
  }

  /** Every live word below `idx` stands at its rank. */
  ghost predicate Placed(live: seq<bool>, from: seq<Word>, to: seq<Word>, idx: nat)
    requires idx <= |live| <= |from|
  {
    forall i :: 0 <= i < idx && live[i] ==>
      Rank(live, i) < Rank(live, idx) && Rank(live, i) < |to| && to[Rank(live, i)] == from[i]
  }

  /** Copying a run of live words places it above everything placed before. */
  lemma PlacedCopy(live: seq<bool>, from: seq<Word>, to: seq<Word>, to': seq<Word>, idx: nat, n: nat)
    requires idx + n <= |live| <= |from| && Placed(live, from, to, idx) && |to'| == |to|
    requires Rank(live, idx + n) == Rank(live, idx) + n <= |to|
    requires forall i :: idx <= i < idx + n ==> live[i] && Rank(live, i) == Rank(live, idx) + (i - idx)
    requires forall r :: 0 <= r < |to| ==>
               to'[r] == if Rank(live, idx) <= r < Rank(live, idx) + n then from[idx + (r - Rank(live, idx))] else to[r]
    ensures Placed(live, from, to', idx + n)
  {
    hide Rank;
  }

  method CopyObject(toSpace: array<Word>, newHp: nat, fromSpace: array<Word>, idx: nat, size: nat,
                    ghost live: seq<bool>)
    requires toSpace != fromSpace && idx + size <= |live| <= fromSpace.Length
    requires newHp == Rank(live, idx) && Rank(live, idx + size) == newHp + size <= toSpace.Length
    requires forall i :: idx <= i < idx + size ==> live[i] && Rank(live, i) == newHp + (i - idx)
    requires Placed(live, fromSpace[..], toSpace[..], idx)
    modifies toSpace
    ensures Placed(live, fromSpace[..], toSpace[..], idx + size)
  {
    hide Rank, Placed;
    ghost var to, from := toSpace[..], fromSpace[..];
    CopySlice(toSpace, newHp, fromSpace, idx, size);
    assert fromSpace[..] == from;
    PlacedCopy(live, from, to, toSpace[..], idx, size);
  }

  /** Step 4: copy every live object to its forwarding address. */
  method Compact(fromSpace: array<Word>, bits: GcMarkBits, usedWords: nat, ghost mem: seq<Word>, ghost own: seq<nat>,
                 ghost roots: seq<Word>) returns (toSpace: array<Word>, newHp: nat)
    requires usedWords == bits.marks.Length && Layout(mem, usedWords, own) && Marks(mem, own, roots, bits.marks[..])
    requires Updated(mem, own, bits.marks[..], usedWords, fromSpace[..])
    ensures fresh(toSpace) && toSpace.Length == usedWords && newHp == Rank(bits.marks[..], usedWords)
    ensures forall i :: 0 <= i < usedWords && bits.marks[i] ==>
              Rank(bits.marks[..], i) < newHp && toSpace[Rank(bits.marks[..], i)] == fromSpace[i]
  {
    hide Tag, Size, Marks, Layout, Rank, Relocated;
    ghost var live, from := bits.marks[..], fromSpace[..];
    LayoutRange(mem, usedWords, own);
    RankZero(live);
    toSpace := new Word[usedWords](_ => 0);
    newHp := 0;
    var idx := 0;
    while idx < usedWords
      invariant idx <= usedWords && newHp == Rank(live, idx) && NoStraddle(mem, own, live, idx)
      invariant Placed(live, from, toSpace[..], idx)
    {
      hide Placed, Updated, NoStraddle;
      if bits.Get(idx) {
        WalkLive(mem, usedWords, own, roots, live, idx);
        RanksWithin(mem, usedWords, own, roots, live, idx);
        HeaderKept(mem, own, live, usedWords, from, idx);
        var size := Size(fromSpace[idx]);
        RankMonotone(live, 0, idx + size);
        CopyObject(toSpace, newHp, fromSpace, idx, size, live);
        newHp := newHp + size;
        idx := idx + size;
      } else {
        WalkDead(mem, usedWords, own, roots, live, idx);
        PlacedGap(live, from, toSpace[..], idx);
        idx := idx + 1;
      }
    }
  }

  lemma PlacedGap(live: seq<bool>, from: seq<Word>, to: seq<Word>, idx: nat)
    requires idx < |live| <= |from| && Placed(live, from, to, idx)
    requires !live[idx] && Rank(live, idx + 1) == Rank(live, idx)
    ensures Placed(live, from, to, idx + 1)
  {
    hide Rank;
  }

  lemma HeaderKept(mem: seq<Word>, own: seq<nat>, live: seq<bool>, upTo: nat, mem': seq<Word>, p: nat)
    requires |own| == |live| <= |mem| && Updated(mem, own, live, upTo, mem') && p < |own| && own[p] == p
    ensures |mem'| == |mem| && mem'[p] == mem[p]
  {
  }

  // ---- The slide as a whole ----------------------------------------------------------------

  /** Steps 2 to 4, once the marks are in place. */
  method Slide(from: array<Word>, bits: GcMarkBits, roots: seq<Word>, usedWords: nat, ghost own: seq<nat>)
    returns (to: array<Word>, newHp: nat, rootTerms: seq<Word>)
    requires usedWords == bits.marks.Length && WellFormedBy(from[..], usedWords, roots, own)
    requires bits.marks[..] == LiveBits(from[..], usedWords, roots)
    modifies from
    ensures fresh(to) && to.Length == usedWords && newHp == Rank(bits.marks[..], usedWords) <= usedWords
    ensures Slid(old(from[..]), own, bits.marks[..], to[..], newHp)
    ensures |rootTerms| == |roots|
    ensures forall i :: 0 <= i < |roots| ==> rootTerms[i] == Relocated(bits.marks[..], roots[i])
  {
    hide Tag, Size, Marks, Layout, Rank, FieldsOk, RootsOk, ForwardTable, Relocated;
    ghost var mem, live := from[..], bits.marks[..];
    LayoutRange(mem, usedWords, own);
    LiveBitsAreMarks(mem, usedWords, roots, own);
    var forward;
    forward, newHp := BuildForward(bits, from[..], usedWords, own, roots);
    rootTerms := UpdateRoots(roots, forward, mem, own, live);
    UpdateReferences(from, bits, forward, usedWords, own, roots);
    to, newHp := Compact(from, bits, usedWords, mem, own, roots);
  }

  /** The to-space after compaction: each live word at its rank, with its fields relocated. */
  ghost predicate Slid(mem: seq<Word>, own: seq<nat>, live: seq<bool>, to: seq<Word>, newHp: nat) {
    && |own| == |live| <= |mem| && newHp == Rank(live, |live|)
    && forall i :: 0 <= i < |live| && live[i] ==>
        && Rank(live, i) < newHp && Rank(live, i) < |to|
        && to[Rank(live, i)] == if own[i] == i then mem[i] else Relocated(live, mem[i])
  }

  lemma SlideIsCollection(mem: seq<Word>, hp: nat, roots: seq<Word>, own: seq<nat>,
                          to: seq<Word>, newHp: nat, mem': seq<Word>, roots': seq<Word>)
    requires WellFormedBy(mem, hp, roots, own) && Slid(mem, own, LiveBits(mem, hp, roots), to, newHp)
    requires |to| == hp && newHp <= hp && |mem'| == |mem|
    requires forall i :: 0 <= i < |mem| ==> mem'[i] == if i < newHp then to[i] else mem[i]
    requires |roots'| == |roots|
    requires forall i :: 0 <= i < |roots| ==> roots'[i] == Relocated(LiveBits(mem, hp, roots), roots[i])
    ensures Collected(mem, hp, roots, mem', newHp, roots')
  {
    hide Tag, Size, Reachable, Relocated, Layout, FieldsOk, RootsOk, Rank;
    var live := LiveBits(mem, hp, roots);
    LiveBitsAreMarks(mem, hp, roots, own);
    LayoutRange(mem, hp, own);
    forall i | 0 <= i < hp && live[i] ensures mem'[Rank(live, i)] == NewWord(mem, roots, live, i) {
      assert own[i] == i ==> live[i] == Reachable(mem, roots, i);
    }
  }

  method ToVec(a: array<Word>) returns (copy: array<Word>)
    ensures fresh(copy) && copy[..] == a[..]
  {
    copy := new Word[a.Length](i requires 0 <= i < a.Length reads a => a[i]);
  }

  lemma NothingLive(mem: seq<Word>, hp: nat, roots: seq<Word>, own: seq<nat>)
    requires hp <= |mem| && (roots == [] || WellFormedBy(mem, hp, roots, own))
    requires Rank(LiveBits(mem, hp, roots), hp) == 0
    ensures Collected(mem, hp, roots, mem, 0, roots)
  {
    var live := LiveBits(mem, hp, roots);
    forall i | 0 <= i < hp ensures !live[i] {
      if live[i] {
        RankMonotone(live, i, hp);
      }
    }
  }

  method UpdateRoots(roots: seq<Word>, forward: seq<Option<nat>>, ghost mem: seq<Word>,
                     ghost own: seq<nat>, ghost live: seq<bool>)
    returns (rootTerms: seq<Word>)
    requires |own| <= |mem| && ForwardTable(own, live, forward) && RootsOk(mem, own, roots)
    ensures |rootTerms| == |roots| && forall i :: 0 <= i < |roots| ==> rootTerms[i] == Relocated(live, roots[i])
  {
    rootTerms := roots;
    for i := 0 to |roots|
      invariant |rootTerms| == |roots|
      invariant forall j :: 0 <= j < |roots| ==> rootTerms[j] == if j < i then Relocated(live, roots[j]) else roots[j]
    {
      assert roots[i] in roots;
      ForwardedIsRelocated(mem, own, live, forward, roots[i]);
      rootTerms := rootTerms[i := Forwarded(rootTerms[i], forward)];
    }
  }
}
