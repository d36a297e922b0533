/**
 What one major collection does to memory, stated with reachability only, and the theorems about it:
 the meaning of every root survives, sharing is neither lost nor invented, the new heap is well
 formed, a second collection changes nothing, and downward-pointing heaps stay downward-pointing.
 */
module Collection {
  import opened Wrappers
  import opened Words
  import opened HeapLayout
  import opened Sliding

  ghost predicate Covers(mem: seq<Word>, p: nat, i: nat) {
    p < |mem| && p <= i < p + Size(mem[p])
  }

  /** Word `i` lies in an object that some root reaches. */
  ghost predicate LiveWord(mem: seq<Word>, roots: seq<Word>, i: nat) {
    exists p: nat :: Covers(mem, p, i) && Reachable(mem, roots, p)
  }

  ghost function LiveBits(mem: seq<Word>, hp: nat, roots: seq<Word>): (bits: seq<bool>)
    ensures |bits| == hp && forall i :: 0 <= i < hp ==> bits[i] == LiveWord(mem, roots, i)
  {
    seq(hp, i requires 0 <= i < hp => LiveWord(mem, roots, i))
  }

  /** A word as it reads after sliding: pointers to live objects get the rank of their target. */
  function Relocated(live: seq<bool>, w: Word): (w': Word)
    ensures Tag(w') == Tag(w) && (!IsPtr(w) ==> w' == w)
    ensures IsPtr(w) && Addr(w) < |live| && live[Addr(w)] ==> Addr(w') == Rank(live, Addr(w))
  {
    if IsPtr(w) && Addr(w) < |live| && live[Addr(w)] then
      PointerParts(Rank(live, Addr(w)), Tag(w));
      Pointer(Rank(live, Addr(w)), Tag(w))
    else w
  }

  /** The specification of a major collection: live words slide down to their ranks. */
  ghost predicate Collected(mem: seq<Word>, hp: nat, roots: seq<Word>, mem': seq<Word>, hp': nat, roots': seq<Word>)
    requires hp <= |mem|
  {
    var live := LiveBits(mem, hp, roots);
    && hp' == Rank(live, hp)
    && |mem'| == |mem| && mem'[hp'..] == mem[hp'..]
    && (forall i :: 0 <= i < hp && live[i] ==> mem'[Rank(live, i)] == NewWord(mem, roots, live, i))
    && |roots'| == |roots| && (forall i :: 0 <= i < |roots| ==> roots'[i] == Relocated(live, roots[i]))
  }

  /** Headers move unchanged, fields are relocated. */
  ghost function NewWord(mem: seq<Word>, roots: seq<Word>, live: seq<bool>, i: nat): Word
    requires i < |mem|
  {
    if Reachable(mem, roots, i) then mem[i] else Relocated(live, mem[i])
  }

  // ---- Reachability inside a well-formed heap ---------------------------------------------

  lemma {:induction false} FollowStaysOk(mem: seq<Word>, hp: nat, own: seq<nat>, w: Word, path: seq<nat>)
    requires Layout(mem, hp, own) && FieldsOk(mem, own) && TermOk(mem, own, w)
    ensures var r := Follow(mem, w, path); r.Some? ==> TermOk(mem, own, r.value)
    decreases |path|
  {
    if path != [] && Follow(mem, w, path).Some? {
      FollowStaysOk(mem, hp, own, mem[Addr(w) + path[0]], path[1..]);
    }
  }

  lemma {:induction false} ReachExtends(mem: seq<Word>, w: Word, path: seq<nat>, p: nat, k: nat)
    requires PathTo(mem, w, path, p) && p + k < |mem| && 1 <= k < Size(mem[p]) && IsPtr(mem[p + k])
    ensures ReachFrom(mem, w, Addr(mem[p + k]))
    decreases |path|
  {
    if path == [] {
      ReachSelf(mem, mem[p + k]);
    } else {
      assert PathTo(mem, mem[Addr(w) + path[0]], path[1..], p);
      ReachExtends(mem, mem[Addr(w) + path[0]], path[1..], p, k);
    }
    ReachThroughField(mem, w, if path == [] then k else path[0], Addr(mem[p + k]));
  }

  /** The live bits of a well-formed heap: whole objects, closed under fields, roots included. */
  ghost predicate Marks(mem: seq<Word>, own: seq<nat>, roots: seq<Word>, live: seq<bool>) {
    && |live| == |own| <= |mem|
    && (forall i :: 0 <= i < |own| ==> own[i] < |own|)
    && (forall i {:trigger own[i]} :: 0 <= i < |own| ==> live[i] == live[own[i]])
    && (forall i {:trigger own[i]} :: 0 <= i < |own| && own[i] == i ==> live[i] == Reachable(mem, roots, i))
    && (forall i :: 0 <= i < |own| && own[i] != i ==> !Reachable(mem, roots, i))
    && (forall i {:trigger Held(live, mem[i])} :: 0 <= i < |own| && live[i] && own[i] != i ==> Held(live, mem[i]))
    && (forall r :: r in roots ==> Held(live, r))
  }

  predicate Held(live: seq<bool>, w: Word) {
    IsPtr(w) ==> Addr(w) < |live| && live[Addr(w)]
  }

  lemma ReachedStart(mem: seq<Word>, hp: nat, roots: seq<Word>, own: seq<nat>, p: nat)
    requires WellFormedBy(mem, hp, roots, own) && Reachable(mem, roots, p)
    ensures p < hp && own[p] == p
  {
    var r: Word :| r in roots && ReachFrom(mem, r, p);
    var path :| PathTo(mem, r, path, p);
    FollowStaysOk(mem, hp, own, r, path);
  }

  lemma LiveIffOwnerReachable(mem: seq<Word>, hp: nat, roots: seq<Word>, own: seq<nat>, i: nat)
    requires WellFormedBy(mem, hp, roots, own) && i < hp
    ensures own[i] < hp && LiveWord(mem, roots, i) == Reachable(mem, roots, own[i])
  {
    hide Reachable, Size;
    if LiveWord(mem, roots, i) {
      var p: nat :| Covers(mem, p, i) && Reachable(mem, roots, p);
      ReachedStart(mem, hp, roots, own, p);
      assert own[i] == own[p];
    } else {
      assert Covers(mem, own[i], i);
    }
  }

  lemma FieldReachable(mem: seq<Word>, roots: seq<Word>, p: nat, k: nat)
    requires Reachable(mem, roots, p) && p + k < |mem| && 1 <= k < Size(mem[p]) && IsPtr(mem[p + k])
    ensures Reachable(mem, roots, Addr(mem[p + k]))
  {
    hide Size;
    var r: Word :| r in roots && ReachFrom(mem, r, p);
    var path :| PathTo(mem, r, path, p);
    ReachExtends(mem, r, path, p, k);
  }

  lemma LiveBitsAreMarks(mem: seq<Word>, hp: nat, roots: seq<Word>, own: seq<nat>)
    requires WellFormedBy(mem, hp, roots, own)
    ensures Marks(mem, own, roots, LiveBits(mem, hp, roots))
  {
    hide Size, Reachable, LiveWord, Tag;
    var live := LiveBits(mem, hp, roots);
    forall i | 0 <= i < hp
      ensures live[i] == Reachable(mem, roots, own[i])
      ensures own[own[i]] == own[i] && (own[i] != i ==> !Reachable(mem, roots, i))
    {
      LiveIffOwnerReachable(mem, hp, roots, own, i);
      if Reachable(mem, roots, i) {
        ReachedStart(mem, hp, roots, own, i);
      }
    }
    forall i | 0 <= i < hp && live[i] && own[i] != i ensures Held(live, mem[i]) {
      if IsPtr(mem[i]) {
        FieldReachable(mem, roots, own[i], i - own[i]);
        ReachedStart(mem, hp, roots, own, Addr(mem[i]));
      }
    }
    forall r | r in roots ensures Held(live, r) {
      RootReachable(mem, roots, r);
      if IsPtr(r) {
        ReachedStart(mem, hp, roots, own, Addr(r));
      }
    }
  }

  lemma RootReachable(mem: seq<Word>, roots: seq<Word>, r: Word)
    requires r in roots
    ensures IsPtr(r) ==> Reachable(mem, roots, Addr(r))
  {
    if IsPtr(r) {
      ReachSelf(mem, r);
    }
  }

  // ---- The forwarding is a sliding layout --------------------------------------------------

  /** Field `k` of a live object lands `k` words above where its header lands. */
  lemma ObjectMovesWhole(mem: seq<Word>, hp: nat, own: seq<nat>, roots: seq<Word>, live: seq<bool>, p: nat, k: nat)
    requires Layout(mem, hp, own) && Marks(mem, own, roots, live)
    requires p < hp && own[p] == p && live[p] && k <= Size(mem[p])
    ensures Rank(live, p + k) == Rank(live, p) + k
  {
    hide Size;
    forall i | p <= i < p + k ensures live[i] {
      assert own[i] == own[p];
    }
    RankOfRun(live, p, p + k);
  }

  /**
   The forwarding address of a live object never lies above it, keeps the order of objects, and the
   images of consecutive live objects are adjacent. The first image starts at 0 and the last ends at
   the new heap pointer: together they tile it.
   */
  lemma SlidingLayout(mem: seq<Word>, hp: nat, roots: seq<Word>, p: nat, q: nat)
    requires WellFormed(mem, hp, roots) && Reachable(mem, roots, p) && Reachable(mem, roots, q)
    ensures p < hp && q < hp <= |mem|
    ensures var live := LiveBits(mem, hp, roots);
            && Rank(live, p) <= p && Rank(live, p) + Size(mem[p]) <= Rank(live, hp)
            && (p < q <==> Rank(live, p) + Size(mem[p]) <= Rank(live, q))
            && (p < q && (forall o: nat :: p < o < q ==> !Reachable(mem, roots, o)) ==>
                  Rank(live, p) + Size(mem[p]) == Rank(live, q))
            && ((forall o: nat :: o < p ==> !Reachable(mem, roots, o)) ==> Rank(live, p) == 0)
            && ((forall o: nat :: p < o < hp ==> !Reachable(mem, roots, o)) ==>
                  Rank(live, p) + Size(mem[p]) == Rank(live, hp))
  {
    hide Size, Reachable, LiveWord, Tag;
    var own :| WellFormedBy(mem, hp, roots, own);
    var live := LiveBits(mem, hp, roots);
    LiveBitsAreMarks(mem, hp, roots, own);
    ReachedStart(mem, hp, roots, own, p);
    ReachedStart(mem, hp, roots, own, q);
    SlidingPair(mem, hp, own, roots, live, p, q);
    SlidingEnds(mem, hp, own, roots, live, p);
  }

  lemma SlidingEnds(mem: seq<Word>, hp: nat, own: seq<nat>, roots: seq<Word>, live: seq<bool>, p: nat)
    requires Layout(mem, hp, own) && Marks(mem, own, roots, live) && p < hp && own[p] == p && live[p]
    ensures (forall o: nat :: o < p ==> !Reachable(mem, roots, o)) ==> Rank(live, p) == 0
    ensures (forall o: nat :: p < o < hp ==> !Reachable(mem, roots, o)) ==>
              Rank(live, p) + Size(mem[p]) == Rank(live, hp)
  {
    hide Size, Reachable, Rank, Layout, Marks;
    MarksLength(mem, hp, own, roots, live);
    assert Rank(live, 0) == 0 by {
      RankMonotone(live, 0, 0);
    }
    NextObject(mem, hp, own, p, p);
    if forall o: nat :: o < p ==> !Reachable(mem, roots, o) {
      DeadRange(mem, hp, own, roots, live, 0, p);
    }
    if forall o: nat :: p < o < hp ==> !Reachable(mem, roots, o) {
      ObjectMovesWhole(mem, hp, own, roots, live, p, Size(mem[p]));
      StartsAfter(mem, hp, own, p);
      DeadRange(mem, hp, own, roots, live, p + Size(mem[p]), hp);
    }
  }

  lemma SlidingPair(mem: seq<Word>, hp: nat, own: seq<nat>, roots: seq<Word>, live: seq<bool>, p: nat, q: nat)
    requires Layout(mem, hp, own) && Marks(mem, own, roots, live)
    requires p < hp && q < hp && own[p] == p && own[q] == q && live[p] && live[q]
    ensures Rank(live, p) + Size(mem[p]) <= Rank(live, hp)
    ensures p < q <==> Rank(live, p) + Size(mem[p]) <= Rank(live, q)
    ensures p < q && (forall o: nat :: p < o < q ==> !Reachable(mem, roots, o)) ==>
              Rank(live, p) + Size(mem[p]) == Rank(live, q)
  {
    hide Size, Reachable, Rank, Layout, Marks;
    MarksLength(mem, hp, own, roots, live);
    var e := p + Size(mem[p]);
    NextObject(mem, hp, own, p, q);
    ObjectMovesWhole(mem, hp, own, roots, live, p, Size(mem[p]));
    RankMonotone(live, e, hp);
    if p < q {
      RankMonotone(live, e, q);
      if forall o: nat :: p < o < q ==> !Reachable(mem, roots, o) {
        DeadGap(mem, hp, own, roots, live, p, q);
      }
    } else {
      RankMonotone(live, q, p);
    }
  }

  lemma MarksLength(mem: seq<Word>, hp: nat, own: seq<nat>, roots: seq<Word>, live: seq<bool>)
    requires Layout(mem, hp, own) && Marks(mem, own, roots, live)
    ensures |live| == |own| == hp <= |mem|
  {
  }

  /** An object ends inside the heap, and no later object starts before its end. */
  lemma NextObject(mem: seq<Word>, hp: nat, own: seq<nat>, p: nat, q: nat)
    requires Layout(mem, hp, own) && p < hp && q < hp && own[p] == p && own[q] == q
    ensures p < p + Size(mem[p]) <= hp && (p < q ==> p + Size(mem[p]) <= q)
  {
    hide Size, ValidHeader;
    if p < q < p + Size(mem[p]) {
      SameObject(mem, hp, own, p, q);
    }
  }

  /** Between a live object and the next reachable one no word is live. */
  lemma DeadGap(mem: seq<Word>, hp: nat, own: seq<nat>, roots: seq<Word>, live: seq<bool>, p: nat, q: nat)
    requires Layout(mem, hp, own) && Marks(mem, own, roots, live)
    requires p < hp && own[p] == p && p + Size(mem[p]) <= q < hp
    requires forall o: nat :: p < o < q ==> !Reachable(mem, roots, o)
    ensures Rank(live, p + Size(mem[p])) == Rank(live, q)
  {
    hide Size, Reachable, Tag, Held, Rank, ValidHeader;
    StartsAfter(mem, hp, own, p);
    DeadRange(mem, hp, own, roots, live, p + Size(mem[p]), q);
  }

  /** Words above the end of an object belong to objects above it. */
  lemma StartsAfter(mem: seq<Word>, hp: nat, own: seq<nat>, p: nat)
    requires Layout(mem, hp, own) && p < hp && own[p] == p
    ensures p + Size(mem[p]) <= hp && forall i :: p + Size(mem[p]) <= i < hp ==> p + Size(mem[p]) <= own[i]
  {
    hide Size, ValidHeader;
    forall i | p + Size(mem[p]) <= i < hp ensures p + Size(mem[p]) <= own[i] {
      SameObject(mem, hp, own, i, own[i]);
      NextObject(mem, hp, own, own[i], p);
      NextObject(mem, hp, own, p, own[i]);
    }
  }

  lemma DeadRange(mem: seq<Word>, hp: nat, own: seq<nat>, roots: seq<Word>, live: seq<bool>, a: nat, b: nat)
    requires Layout(mem, hp, own) && Marks(mem, own, roots, live) && a <= b <= hp
    requires forall i :: a <= i < b ==> a <= own[i]
    requires forall o: nat :: a <= o < b ==> !Reachable(mem, roots, o)
    ensures Rank(live, a) == Rank(live, b)
  {
    hide Size, Reachable, Tag, Held, Rank, ValidHeader;
    forall i | a <= i < b ensures !live[i] {
      SameObject(mem, hp, own, i, own[i]);
    }
    RankOfGap(live, a, b);
  }

  // ---- Meaning is preserved ----------------------------------------------------------------

  /** Memory after the slide, in terms of a layout. */
  ghost predicate Moved(mem: seq<Word>, own: seq<nat>, live: seq<bool>, mem': seq<Word>)
    requires |live| == |own| <= |mem|
  {
    Rank(live, |live|) <= |mem'| && forall i :: 0 <= i < |own| && live[i] ==> MovedAt(mem, own, live, mem', i)
  }

  ghost predicate MovedAt(mem: seq<Word>, own: seq<nat>, live: seq<bool>, mem': seq<Word>, i: nat)
    requires i < |live| == |own| <= |mem|
  {
    && Rank(live, i) < |mem'|
    && mem'[Rank(live, i)] == if own[i] == i then mem[i] else Relocated(live, mem[i])
  }

  lemma CollectedMoved(mem: seq<Word>, hp: nat, roots: seq<Word>, own: seq<nat>,
                       mem': seq<Word>, hp': nat, roots': seq<Word>)
    requires WellFormedBy(mem, hp, roots, own) && Collected(mem, hp, roots, mem', hp', roots')
    ensures var live := LiveBits(mem, hp, roots);
            Marks(mem, own, roots, live) && Moved(mem, own, live, mem')
  {
    var live := LiveBits(mem, hp, roots);
    LiveBitsAreMarks(mem, hp, roots, own);
    forall i | 0 <= i < hp && live[i] ensures MovedAt(mem, own, live, mem', i) {
      assert own[i] == i ==> live[i] == Reachable(mem, roots, i);
      RankMonotone(live, i, hp);
    }
  }

  function MapOption(live: seq<bool>, r: Option<Word>): Option<Word> {
    match r
    case None => None
    case Some(w) => Some(Relocated(live, w))
  }

  /** Following any path commutes with relocation. */
  lemma {:induction false} FollowMoved(mem: seq<Word>, hp: nat, own: seq<nat>, roots: seq<Word>, live: seq<bool>,
                                       mem': seq<Word>, w: Word, path: seq<nat>)
    requires Layout(mem, hp, own) && FieldsOk(mem, own) && Marks(mem, own, roots, live) && Moved(mem, own, live, mem')
    requires TermOk(mem, own, w) && Held(live, w)
    ensures Follow(mem', Relocated(live, w), path) == MapOption(live, Follow(mem, w, path))
    ensures var r := Follow(mem, w, path); r.Some? ==> TermOk(mem, own, r.value) && Held(live, r.value)
    decreases |path|
  {
    hide Size, Reachable, TermOk, Layout, FieldsOk, Marks, Moved, Held, Tag;
    if path != [] && IsPtr(w) {
      var p, k := Addr(w), path[0];
      LiveTarget(mem, hp, own, roots, live, mem', w);
      if 1 <= k < Size(mem[p]) {
        FieldMoved(mem, hp, own, roots, live, mem', p, k);
        FollowMoved(mem, hp, own, roots, live, mem', mem[p + k], path[1..]);
      }
    }
  }

  lemma LiveTarget(mem: seq<Word>, hp: nat, own: seq<nat>, roots: seq<Word>, live: seq<bool>, mem': seq<Word>, w: Word)
    requires Layout(mem, hp, own) && Marks(mem, own, roots, live) && Moved(mem, own, live, mem')
    requires TermOk(mem, own, w) && Held(live, w) && IsPtr(w)
    ensures var p := Addr(w);
            p < hp == |live| <= |mem| && own[p] == p && live[p] && p + Size(mem[p]) <= hp
            && Rank(live, p) + Size(mem[p]) <= Rank(live, hp) <= |mem'| && mem'[Rank(live, p)] == mem[p]
  {
    hide Size, Reachable, Tag, Addr, ValidHeader, Rank, Relocated;
    var p := Addr(w);
    NewLayoutAt(mem, hp, own, roots, live, p);
    HeaderMoved(mem, hp, own, roots, live, mem', p);
  }

  lemma FieldMoved(mem: seq<Word>, hp: nat, own: seq<nat>, roots: seq<Word>, live: seq<bool>, mem': seq<Word>,
                   p: nat, k: nat)
    requires Layout(mem, hp, own) && FieldsOk(mem, own) && Marks(mem, own, roots, live) && Moved(mem, own, live, mem')
    requires p < hp && own[p] == p && live[p] && 1 <= k < Size(mem[p])
    ensures p + k < hp && TermOk(mem, own, mem[p + k]) && Held(live, mem[p + k])
    ensures Rank(live, p) + k < |mem'| && mem'[Rank(live, p) + k] == Relocated(live, mem[p + k])
  {
    hide Size, Reachable, TermOk, Held;
    assert own[p + k] == own[p];
    ObjectMovesWhole(mem, hp, own, roots, live, p, k);
    assert MovedAt(mem, own, live, mem', p + k);
  }

  /** Two readings, one before and one after a collection, that show a program the same thing. */
  ghost predicate SameReading(mem: seq<Word>, r: Option<Word>, mem': seq<Word>, r': Option<Word>) {
    match (r, r')
    case (None, None) => true
    case (Some(w), Some(w')) =>
      && Tag(w) == Tag(w')
      && (if IsPtr(w) then Addr(w) < |mem| && Addr(w') < |mem'| && mem[Addr(w)] == mem'[Addr(w')] else w == w')
    case _ => false
  }

  /**
   Every access path from a relocated root reads the same header or immediate as the same path from
   the original root, and fails exactly where the original fails.
   */
  lemma MeaningPreserved(mem: seq<Word>, hp: nat, roots: seq<Word>, mem': seq<Word>, hp': nat, roots': seq<Word>,
                         i: nat, path: seq<nat>)
    requires WellFormed(mem, hp, roots) && Collected(mem, hp, roots, mem', hp', roots') && i < |roots|
    ensures SameReading(mem, Follow(mem, roots[i], path), mem', Follow(mem', roots'[i], path))
  {
    var own :| WellFormedBy(mem, hp, roots, own);
    var live := LiveBits(mem, hp, roots);
    CollectedMoved(mem, hp, roots, own, mem', hp', roots');
    FollowMoved(mem, hp, own, roots, live, mem', roots[i], path);
    var r := Follow(mem, roots[i], path);
    if r.Some? && IsPtr(r.value) {
      RankMonotone(live, Addr(r.value), hp);
    }
  }

  /** Two paths meet at one object after the collection exactly when they met before it. */
  lemma SharingPreserved(mem: seq<Word>, hp: nat, roots: seq<Word>, mem': seq<Word>, hp': nat, roots': seq<Word>,
                         i: nat, path: seq<nat>, j: nat, path': seq<nat>)
    requires WellFormed(mem, hp, roots) && Collected(mem, hp, roots, mem', hp', roots')
    requires i < |roots| && j < |roots|
    ensures Follow(mem, roots[i], path) == Follow(mem, roots[j], path') <==>
            Follow(mem', roots'[i], path) == Follow(mem', roots'[j], path')
  {
    var own :| WellFormedBy(mem, hp, roots, own);
    var live := LiveBits(mem, hp, roots);
    CollectedMoved(mem, hp, roots, own, mem', hp', roots');
    FollowMoved(mem, hp, own, roots, live, mem', roots[i], path);
    FollowMoved(mem, hp, own, roots, live, mem', roots[j], path');
    var r, s := Follow(mem, roots[i], path), Follow(mem, roots[j], path');
    if r.Some? && s.Some? {
      RelocatedInjective(live, r.value, s.value);
    }
  }

  lemma RelocatedInjective(live: seq<bool>, w: Word, v: Word)
    requires Held(live, w) && Held(live, v)
    ensures Relocated(live, w) == Relocated(live, v) <==> w == v
  {
    if IsPtr(w) && IsPtr(v) && Tag(w) == Tag(v) {
      RankOrder(live, Addr(w), Addr(v));
      assert w % 8 == v % 8;
    }
  }

  // ---- The new heap ------------------------------------------------------------------------

  ghost function NewLayout(own: seq<nat>, live: seq<bool>): (own': seq<nat>)
    requires |own| == |live| && forall i :: 0 <= i < |own| ==> own[i] < |own|
    ensures |own'| == Rank(live, |live|)
  {
    seq(Rank(live, |live|), r requires 0 <= r < Rank(live, |live|) => Rank(live, own[Select(live, |live|, r)]))
  }

  lemma NewLayoutAt(mem: seq<Word>, hp: nat, own: seq<nat>, roots: seq<Word>, live: seq<bool>, i: nat)
    requires Layout(mem, hp, own) && Marks(mem, own, roots, live) && i < hp && live[i]
    ensures Rank(live, i) < Rank(live, hp)
    ensures NewLayout(own, live)[Rank(live, i)] == Rank(live, own[i])
    ensures Rank(live, i) == Rank(live, own[i]) + (i - own[i])
    ensures Rank(live, own[i]) + Size(mem[own[i]]) <= Rank(live, hp)
  {
    hide Size, Reachable, Held, Rank, Select;
    SelectOfRank(live, i);
    var p := own[i];
    assert own[p] == p;
    ObjectMovesWhole(mem, hp, own, roots, live, p, i - p);
    ObjectMovesWhole(mem, hp, own, roots, live, p, Size(mem[p]));
    RankMonotone(live, p + Size(mem[p]), hp);
  }

  lemma NewLayoutOk(mem: seq<Word>, hp: nat, own: seq<nat>, roots: seq<Word>, live: seq<bool>, mem': seq<Word>)
    requires Layout(mem, hp, own) && Marks(mem, own, roots, live) && Moved(mem, own, live, mem')
    ensures Layout(mem', Rank(live, hp), NewLayout(own, live))
  {
    hide Size, Reachable, Held, ValidHeader, MovedAt, Rank, NewLayout;
    var hp', own' := Rank(live, hp), NewLayout(own, live);
    forall r | 0 <= r < hp'
      ensures own'[r] <= r < own'[r] + Size(mem'[own'[r]]) <= hp' && ValidHeader(mem'[own'[r]])
      ensures forall j :: own'[r] <= j < own'[r] + Size(mem'[own'[r]]) ==> own'[j] == own'[r]
    {
      MovedObject(mem, hp, own, roots, live, mem', r);
    }
  }

  lemma MovedObject(mem: seq<Word>, hp: nat, own: seq<nat>, roots: seq<Word>, live: seq<bool>, mem': seq<Word>, r: nat)
    requires Layout(mem, hp, own) && Marks(mem, own, roots, live) && Moved(mem, own, live, mem') && r < Rank(live, hp)
    ensures var own' := NewLayout(own, live);
            && own'[r] <= r < own'[r] + Size(mem'[own'[r]]) <= Rank(live, hp) && ValidHeader(mem'[own'[r]])
            && forall j :: own'[r] <= j < own'[r] + Size(mem'[own'[r]]) ==> own'[j] == own'[r]
  {
    hide Size, Reachable, Held, ValidHeader, Moved, Rank, NewLayout;
    var own' := NewLayout(own, live);
    var i := Select(live, hp, r);
    NewLayoutAt(mem, hp, own, roots, live, i);
    HeaderMoved(mem, hp, own, roots, live, mem', i);
    forall j | own'[r] <= j < own'[r] + Size(mem'[own'[r]]) ensures own'[j] == own'[r] {
      WordOfMovedObject(mem, hp, own, roots, live, i, j - own'[r]);
    }
  }

  lemma SameObject(mem: seq<Word>, hp: nat, own: seq<nat>, i: nat, j: nat)
    requires Layout(mem, hp, own) && i < hp && own[i] <= j < own[i] + Size(mem[own[i]])
    ensures j < hp && own[j] == own[i] && own[own[i]] == own[i]
  {
    hide Size;
  }

  lemma HeaderMoved(mem: seq<Word>, hp: nat, own: seq<nat>, roots: seq<Word>, live: seq<bool>, mem': seq<Word>, i: nat)
    requires Layout(mem, hp, own) && Marks(mem, own, roots, live) && Moved(mem, own, live, mem') && i < hp && live[i]
    ensures Rank(live, own[i]) < |mem'| && mem'[Rank(live, own[i])] == mem[own[i]]
  {
    hide Size, Reachable, Held;
    assert own[own[i]] == own[i];
    assert MovedAt(mem, own, live, mem', own[i]);
  }

  lemma WordOfMovedObject(mem: seq<Word>, hp: nat, own: seq<nat>, roots: seq<Word>, live: seq<bool>, i: nat, k: nat)
    requires Layout(mem, hp, own) && Marks(mem, own, roots, live) && i < hp && live[i] && k < Size(mem[own[i]])
    ensures Rank(live, own[i]) + k < Rank(live, hp)
    ensures NewLayout(own, live)[Rank(live, own[i]) + k] == Rank(live, own[i])
  {
    hide Size, Reachable, Held, Tag, ValidHeader, Rank, NewLayout;
    var p := own[i];
    SameObject(mem, hp, own, i, p + k);
    assert live[p + k];
    NewLayoutAt(mem, hp, own, roots, live, p + k);
  }

  lemma TermOkMoved(mem: seq<Word>, hp: nat, own: seq<nat>, roots: seq<Word>, live: seq<bool>, mem': seq<Word>, w: Word)
    requires Layout(mem, hp, own) && Marks(mem, own, roots, live) && Moved(mem, own, live, mem')
    requires TermOk(mem, own, w) && Held(live, w)
    ensures TermOk(mem', NewLayout(own, live), Relocated(live, w))
  {
    if IsPtr(w) {
      NewLayoutAt(mem, hp, own, roots, live, Addr(w));
    }
  }

  lemma NewHeapOk(mem: seq<Word>, hp: nat, roots: seq<Word>, own: seq<nat>,
                  mem': seq<Word>, hp': nat, roots': seq<Word>)
    requires WellFormedBy(mem, hp, roots, own) && Collected(mem, hp, roots, mem', hp', roots')
    ensures forall i :: 0 <= i < hp ==> own[i] < hp
    ensures WellFormedBy(mem', hp', roots', NewLayout(own, LiveBits(mem, hp, roots)))
    ensures DownwardBy(mem, own) ==> DownwardBy(mem', NewLayout(own, LiveBits(mem, hp, roots)))
  {
    var live := LiveBits(mem, hp, roots);
    CollectedMoved(mem, hp, roots, own, mem', hp', roots');
    NewLayoutOk(mem, hp, own, roots, live, mem');
    var own' := NewLayout(own, live);
    forall r | 0 <= r < hp' && own'[r] != r
      ensures TermOk(mem', own', mem'[r])
      ensures DownwardBy(mem, own) && IsPtr(mem'[r]) ==> Addr(mem'[r]) < own'[r]
    {
      var i := Select(live, hp, r);
      NewLayoutAt(mem, hp, own, roots, live, i);
      TermOkMoved(mem, hp, own, roots, live, mem', mem[i]);
      if DownwardBy(mem, own) && IsPtr(mem[i]) {
        RankMonotone(live, Addr(mem[i]), own[i]);
      }
    }
    forall i | 0 <= i < |roots| ensures TermOk(mem', own', roots'[i]) {
      assert roots[i] in roots;
      TermOkMoved(mem, hp, own, roots, live, mem', roots[i]);
    }
  }

  /** A collection leaves a well-formed heap no larger than before. */
  lemma CollectedWellFormed(mem: seq<Word>, hp: nat, roots: seq<Word>, mem': seq<Word>, hp': nat, roots': seq<Word>)
    requires WellFormed(mem, hp, roots) && Collected(mem, hp, roots, mem', hp', roots')
    ensures WellFormed(mem', hp', roots') && hp' <= hp
  {
    var own :| WellFormedBy(mem, hp, roots, own);
    NewHeapOk(mem, hp, roots, own, mem', hp', roots');
  }

  lemma CollectedDownward(mem: seq<Word>, hp: nat, roots: seq<Word>, mem': seq<Word>, hp': nat, roots': seq<Word>)
    requires Downward(mem, hp, roots) && Collected(mem, hp, roots, mem', hp', roots')
    ensures Downward(mem', hp', roots')
  {
    var own :| WellFormedBy(mem, hp, roots, own) && DownwardBy(mem, own);
    NewHeapOk(mem, hp, roots, own, mem', hp', roots');
  }

  /** Without roots nothing is kept, and no word is touched. */
  lemma NoRootsNothingKept(mem: seq<Word>, hp: nat, mem': seq<Word>, hp': nat)
    requires hp <= |mem| && Collected(mem, hp, [], mem', hp', [])
    ensures hp' == 0 && mem' == mem
  {
    var live := LiveBits(mem, hp, []);
    RankOfGap(live, 0, hp);
    assert mem'[0..] == mem' && mem[0..] == mem;
  }

  // ---- Collecting twice --------------------------------------------------------------------

  lemma ReachingRoot(mem: seq<Word>, roots: seq<Word>, p: nat) returns (n: nat, path: seq<nat>)
    requires Reachable(mem, roots, p)
    ensures n < |roots| && PathTo(mem, roots[n], path, p)
  {
    var r: Word :| r in roots && ReachFrom(mem, r, p);
    path :| PathTo(mem, r, path, p);
    n :| 0 <= n < |roots| && roots[n] == r;
  }

  lemma StillReachable(mem: seq<Word>, hp: nat, roots: seq<Word>, own: seq<nat>,
                       mem': seq<Word>, hp': nat, roots': seq<Word>, p: nat)
    requires WellFormedBy(mem, hp, roots, own) && Collected(mem, hp, roots, mem', hp', roots')
    requires p < hp && Reachable(mem, roots, p) && LiveBits(mem, hp, roots)[p]
    ensures Reachable(mem', roots', Rank(LiveBits(mem, hp, roots), p))
  {
    hide Size, LiveWord, Tag, TermOk, Layout, FieldsOk, NewWord, Moved, Follow, LiveBits;
    var live := LiveBits(mem, hp, roots);
    var n, path := ReachingRoot(mem, roots, p);
    CollectedMoved(mem, hp, roots, own, mem', hp', roots');
    assert roots[n] in roots;
    FollowMoved(mem, hp, own, roots, live, mem', roots[n], path);
    assert PathTo(mem', roots'[n], path, Rank(live, p));
    assert roots'[n] in roots';
  }

  lemma LiveAfter(mem: seq<Word>, hp: nat, roots: seq<Word>, own: seq<nat>,
                  mem': seq<Word>, hp': nat, roots': seq<Word>, r: nat)
    requires WellFormedBy(mem, hp, roots, own) && Collected(mem, hp, roots, mem', hp', roots') && r < hp'
    ensures LiveWord(mem', roots', r)
  {
    hide Size, Reachable, LiveWord, Tag, TermOk, FieldsOk, NewWord, Moved, Held, RootsOk;
    var live := LiveBits(mem, hp, roots);
    CollectedMoved(mem, hp, roots, own, mem', hp', roots');
    var i := Select(live, hp, r);
    NewLayoutAt(mem, hp, own, roots, live, i);
    HeaderMoved(mem, hp, own, roots, live, mem', i);
    assert own[own[i]] == own[i];
    StillReachable(mem, hp, roots, own, mem', hp', roots', own[i]);
    LiveByStart(mem', roots', Rank(live, own[i]), r);
  }

  lemma LiveByStart(mem: seq<Word>, roots: seq<Word>, p: nat, i: nat)
    requires Reachable(mem, roots, p) && Covers(mem, p, i)
    ensures LiveWord(mem, roots, i)
  {
  }

  /** Nothing unreachable is kept: a second collection from the relocated roots is the identity. */
  lemma CollectTwice(mem: seq<Word>, hp: nat, roots: seq<Word>, mem': seq<Word>, hp': nat, roots': seq<Word>,
                     mem'': seq<Word>, hp'': nat, roots'': seq<Word>)
    requires WellFormed(mem, hp, roots)
    requires Collected(mem, hp, roots, mem', hp', roots') && Collected(mem', hp', roots', mem'', hp'', roots'')
    ensures mem'' == mem' && hp'' == hp' && roots'' == roots'
  {
    hide Size, Reachable, LiveWord, Tag, TermOk;
    var own :| WellFormedBy(mem, hp, roots, own);
    NewHeapOk(mem, hp, roots, own, mem', hp', roots');
    var own' := NewLayout(own, LiveBits(mem, hp, roots));
    forall r | 0 <= r < hp' ensures LiveWord(mem', roots', r) {
      LiveAfter(mem, hp, roots, own, mem', hp', roots', r);
    }
    CollectAllLive(mem', hp', roots', own', mem'', hp'', roots'');
  }

  lemma CollectAllLive(mem: seq<Word>, hp: nat, roots: seq<Word>, own: seq<nat>,
                       mem': seq<Word>, hp': nat, roots': seq<Word>)
    requires WellFormedBy(mem, hp, roots, own) && Collected(mem, hp, roots, mem', hp', roots')
    requires forall r :: 0 <= r < hp ==> LiveWord(mem, roots, r)
    ensures mem' == mem && hp' == hp && roots' == roots
  {
    hide Size, Reachable, LiveWord, Tag, TermOk, Held, Layout, FieldsOk, Moved, Relocated, Marks, RootsOk, Collected;
    var live := LiveBits(mem, hp, roots);
    CollectedMoved(mem, hp, roots, own, mem', hp', roots');
    CollectedRest(mem, hp, roots, mem', hp', roots');
    AllLiveRanks(live);
    forall r | 0 <= r < |mem| ensures mem'[r] == mem[r] {
      if r < hp {
        AllLiveWord(mem, own, roots, live, mem', r);
      }
    }
    forall i | 0 <= i < |roots| ensures roots'[i] == roots[i] {
      AllLiveRoot(mem, own, roots, live, i);
    }
  }

  lemma CollectedRest(mem: seq<Word>, hp: nat, roots: seq<Word>, mem': seq<Word>, hp': nat, roots': seq<Word>)
    requires hp <= |mem| && Collected(mem, hp, roots, mem', hp', roots')
    ensures |mem'| == |mem| && forall r :: hp' <= r < |mem| ==> mem'[r] == mem[r]
    ensures hp' == Rank(LiveBits(mem, hp, roots), hp) && |roots'| == |roots|
    ensures forall i :: 0 <= i < |roots| ==> roots'[i] == Relocated(LiveBits(mem, hp, roots), roots[i])
  {
    forall r | hp' <= r < |mem| ensures mem'[r] == mem[r] {
      assert mem'[hp'..][r - hp'] == mem[hp'..][r - hp'];
    }
  }

  lemma AllLiveRoot(mem: seq<Word>, own: seq<nat>, roots: seq<Word>, live: seq<bool>, i: nat)
    requires Marks(mem, own, roots, live) && i < |roots| && forall r :: 0 <= r <= |live| ==> Rank(live, r) == r
    ensures Relocated(live, roots[i]) == roots[i]
  {
    hide Reachable, Tag;
    assert roots[i] in roots;
    FixedPointer(live, roots[i]);
  }

  lemma AllLiveRanks(live: seq<bool>)
    requires forall r :: 0 <= r < |live| ==> live[r]
    ensures forall r :: 0 <= r <= |live| ==> Rank(live, r) == r
  {
    forall r | 0 <= r <= |live| ensures Rank(live, r) == r {
      RankOfRun(live, 0, r);
    }
  }

  lemma AllLiveWord(mem: seq<Word>, own: seq<nat>, roots: seq<Word>, live: seq<bool>, mem': seq<Word>, r: nat)
    requires Marks(mem, own, roots, live) && Moved(mem, own, live, mem')
    requires r < |live| && live[r] && forall r :: 0 <= r <= |live| ==> Rank(live, r) == r
    ensures r < |mem'| && mem'[r] == mem[r]
  {
    assert MovedAt(mem, own, live, mem', r);
    if own[r] != r {
      assert Held(live, mem[r]);
      FixedPointer(live, mem[r]);
    }
  }

  lemma FixedPointer(live: seq<bool>, w: Word)
    requires Held(live, w) && forall r :: 0 <= r <= |live| ==> Rank(live, r) == r
    ensures Relocated(live, w) == w
  {
  }
}
