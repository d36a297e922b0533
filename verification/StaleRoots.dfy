/**
 The relocated roots of a major collection are kept in a local vector, so a caller goes on with the
 words it had. When such a word is still the right one, and what happens when it is not.
 */
module StaleRoots {
  import opened Words
  import opened HeapLayout
  import opened Sliding
  import opened Collection

  /** No word below the object under `w` is garbage. */
  ghost predicate NothingDeadBelow(mem: seq<Word>, roots: seq<Word>, w: Word) {
    IsPtr(w) ==> forall j: nat :: j < Addr(w) ==> LiveWord(mem, roots, j)
  }

  /** A caller's word equals the relocated root exactly when no dead word lies below its object. */
  lemma OldWordRightIff(mem: seq<Word>, hp: nat, roots: seq<Word>, mem': seq<Word>, hp': nat, roots': seq<Word>, i: nat)
    requires WellFormed(mem, hp, roots) && Collected(mem, hp, roots, mem', hp', roots') && i < |roots|
    ensures roots'[i] == roots[i] <==> NothingDeadBelow(mem, roots, roots[i])
  {
    hide LiveWord, Reachable, Layout, FieldsOk, TermOk, NewWord, Tag, Addr;
    var own :| WellFormedBy(mem, hp, roots, own);
    var live := LiveBits(mem, hp, roots);
    LiveBitsAreMarks(mem, hp, roots, own);
    LiveBitsLength(mem, hp, roots, own);
    var w := roots[i];
    if IsPtr(w) {
      assert w in roots && Held(live, w);
      RankIsPositionIff(live, Addr(w));
      PointerDetermined(w, roots'[i]);
    }
  }

  lemma LiveBitsLength(mem: seq<Word>, hp: nat, roots: seq<Word>, own: seq<nat>)
    requires WellFormedBy(mem, hp, roots, own)
    ensures |own| == hp <= |mem|
  {
  }

  lemma PointerDetermined(w: Word, w': Word)
    requires Tag(w) == Tag(w')
    ensures w == w' <==> Addr(w) == Addr(w')
  {
    assert w % 8 == w' % 8;
  }

  /** Under that condition the caller's own word keeps its meaning through the collection. */
  lemma OldWordKeepsMeaning(mem: seq<Word>, hp: nat, roots: seq<Word>, mem': seq<Word>, hp': nat, roots': seq<Word>,
                            i: nat, path: seq<nat>)
    requires WellFormed(mem, hp, roots) && Collected(mem, hp, roots, mem', hp', roots') && i < |roots|
    requires NothingDeadBelow(mem, roots, roots[i])
    ensures SameReading(mem, Follow(mem, roots[i], path), mem', Follow(mem', roots[i], path))
  {
    hide LiveWord, WellFormed, Collected, Follow;
    assert |roots'| == |roots| by {
      RootCount(mem, hp, roots, mem', hp', roots');
    }
    OldWordRightIff(mem, hp, roots, mem', hp', roots', i);
    MeaningPreserved(mem, hp, roots, mem', hp', roots', i, path);
  }

  lemma RootCount(mem: seq<Word>, hp: nat, roots: seq<Word>, mem': seq<Word>, hp': nat, roots': seq<Word>)
    requires WellFormed(mem, hp, roots) && Collected(mem, hp, roots, mem', hp', roots')
    ensures |roots'| == |roots|
  {
  }

  // ---- A word that goes stale ------------------------------------------------------------------

  /** Two cons cells, of which only the second is a root. */
  const TWO_CELLS: seq<Word> := [CONS_HEADER, NIL, NIL, CONS_HEADER, NIL, NIL]

  const SECOND: Word := 26

  lemma OnlySecondReachable(p: nat)
    ensures Reachable(TWO_CELLS, [SECOND], p) <==> p == 3
  {
    assert Tag(SECOND) == Cons && Addr(SECOND) == 3 && Tag(NIL) == Atom && Size(TWO_CELLS[3]) == 3;
    ReachSelf(TWO_CELLS, SECOND);
    assert SECOND in [SECOND];
    if Reachable(TWO_CELLS, [SECOND], p) {
      var path :| PathTo(TWO_CELLS, SECOND, path, p);
      if path != [] {
        assert TWO_CELLS[3 + path[0]] == NIL;
        assert Follow(TWO_CELLS, SECOND, path) == Follow(TWO_CELLS, NIL, path[1..]);
      }
    }
  }

  lemma SecondIsLive(i: nat)
    ensures LiveWord(TWO_CELLS, [SECOND], i) <==> 3 <= i < 6
  {
    assert Size(TWO_CELLS[3]) == 3;
    OnlySecondReachable(3);
    assert 3 <= i < 6 ==> Covers(TWO_CELLS, 3, i);
    if p: nat :| Covers(TWO_CELLS, p, i) && Reachable(TWO_CELLS, [SECOND], p) {
      OnlySecondReachable(p);
    }
  }

  lemma TwoCellsRanks(live: seq<bool>)
    requires live == LiveBits(TWO_CELLS, 6, [SECOND])
    ensures forall i :: 0 <= i < 6 ==> live[i] == (3 <= i)
    ensures forall i :: 3 <= i <= 6 ==> Rank(live, i) == i - 3
  {
    hide LiveWord;
    forall i | 0 <= i < 6 ensures live[i] == (3 <= i) {
      SecondIsLive(i);
    }
    RankOfGap(live, 0, 3);
    assert Rank(live, 0) == 0;
    forall i | 3 <= i <= 6 ensures Rank(live, i) == i - 3 {
      RankOfRun(live, 3, i);
    }
  }

  /** After collecting this heap the word the caller holds points at the new heap pointer, where nothing is. */
  lemma OldWordGoesStale()
    ensures SECOND == Pointer(3, Cons) && WellFormed(TWO_CELLS, 6, [SECOND])
    ensures Collected(TWO_CELLS, 6, [SECOND], TWO_CELLS, 3, [Pointer(0, Cons)])
    ensures !NothingDeadBelow(TWO_CELLS, [SECOND], SECOND) && Addr(SECOND) == 3
  {
    hide Reachable, LiveWord, Rank;
    TwoCellsWellFormed();
    TwoCellsRanks(LiveBits(TWO_CELLS, 6, [SECOND]));
    OnlySecondReachable(3);
    SecondIsLive(0);
    assert Tag(SECOND) == Cons && Tag(NIL) == Atom;
  }

  lemma TwoCellsWellFormed()
    ensures WellFormed(TWO_CELLS, 6, [SECOND])
  {
    hide Size, Tag, ValidHeader;
    var own := [0, 0, 0, 3, 3, 3];
    ConsWords();
    assert Layout(TWO_CELLS, 6, own) && FieldsOk(TWO_CELLS, own);
    assert WellFormedBy(TWO_CELLS, 6, [SECOND], own);
  }

  lemma ConsWords()
    ensures Tag(SECOND) == Cons && Tag(NIL) == Atom && Tag(CONS_HEADER) == Cons
    ensures Size(CONS_HEADER) == 3 && ValidHeader(CONS_HEADER)
  {
  }
}
