/** When the map instructions succeed, and what they answer on terms that are not maps. */
module MapAnswers {
  import opened Words
  import opened ProcessHeaps
  import opened HeapGrowth
  import opened HeapMaps
  import opened MapMeaning

  /** The words a map of `n` keys takes. */
  function WordsOf(n: nat): nat {
    1 + 2 * n
  }

  /**
   Putting a key answers nil exactly when the words of the new map do not fit, and then nothing has
   changed. Otherwise the new term represents the map with the key added, or the old map when the key
   was bound, and takes exactly those words.
   */
  lemma PutAnswers(s: State, w: Word, m: map<Word, Word>, key: Word, value: Word)
    requires Represents(s, w, m) && s.hp <= |s.mem|
    ensures MapReadable(s.mem, w)
    ensures var (w', s') := MapPutResult(s, w, key, value);
            var n := if key in m then |m| else |m| + 1;
            && (w' == NIL <==> s.hp + WordsOf(n) > |s.mem|)
            && (w' == NIL ==> s' == s)
            && (w' != NIL ==> s'.hp == s.hp + WordsOf(n) && AgreeBelow(s.mem, s'.mem, s.hp)
                              && Represents(s', w', if key in m then m else m[key := value]))
  {
    hide IsMap, NewMap, Denoted, DistinctKeys, PairCount;
    var pairs := PairsOf(s, Handed(w, m, true));
    PutMatchesIff(pairs, key, value);
    var out := PutPairs(pairs, key, value);
    PairsCounted(pairs, m);
    PairsCounted(out, if key in m then m else m[key := value]);
    StateBounds(s, w, m);
    NewMapIsMap(s, out);
    KeyIndexFinds(pairs, key);
  }

  lemma PairsCounted(pairs: seq<Pair>, m: map<Word, Word>)
    requires DistinctKeys(pairs) && Denoted(pairs) == m
    ensures |pairs| == |m|
  {
    DistinctCount(pairs);
    assert m.Keys == KeySet(pairs);
    assert |m.Keys| == |m|;
  }

  lemma StateBounds(s: State, w: Word, m: map<Word, Word>)
    requires Represents(s, w, m)
    ensures s.hp <= |s.mem| < MAX_WORDS
  {
  }

  /**
   Removing a key answers nil exactly when the words of what remains do not fit, and then nothing has
   changed. Otherwise the new term represents the map without the key.
   */
  lemma RemoveAnswers(s: State, w: Word, m: map<Word, Word>, key: Word)
    requires Represents(s, w, m) && s.hp <= |s.mem|
    ensures MapReadable(s.mem, w)
    ensures var (w', s') := MapRemoveResult(s, w, key);
            var n := if key in m then |m| - 1 else |m|;
            && (w' == NIL <==> s.hp + WordsOf(n) > |s.mem|)
            && (w' == NIL ==> s' == s)
            && (w' != NIL ==> s'.hp == s.hp + WordsOf(n) && AgreeBelow(s.mem, s'.mem, s.hp)
                              && Represents(s', w', m - {key}))
  {
    hide IsMap, NewMap, Denoted, DistinctKeys, PairCount, RemovePairs;
    var pairs := PairsOf(s, Handed(w, m, true));
    RemoveMatches(pairs, key);
    var out := RemovePairs(pairs, key);
    PairsCounted(pairs, m);
    PairsCounted(out, m - {key});
    StateBounds(s, w, m);
    NewMapIsMap(s, out);
    KeysLeft(m, key);
  }

  lemma KeysLeft(m: map<Word, Word>, key: Word)
    ensures |m - {key}| == if key in m then |m| - 1 else |m|
  {
    assert (m - {key}).Keys == m.Keys - {key};
    assert |m.Keys| == |m| && |(m - {key}).Keys| == |m - {key}|;
  }

  /** Creating a map answers nil exactly when its words do not fit; keys given once read their own values. */
  lemma CreateAnswers(s: State, pairs: seq<Pair>, i: nat)
    requires s.hp <= |s.mem| < MAX_WORDS && i < |pairs|
    ensures var (w, s') := NewMap(s, pairs);
            && (w == NIL <==> s.hp + WordsOf(|pairs|) > |s.mem|)
            && (w == NIL ==> s' == s)
            && (w != NIL ==> s'.hp == s.hp + WordsOf(|pairs|) && MapReadable(s'.mem, w)
                             && (DistinctKeys(pairs) ==> MapGetResult(s'.mem, w, pairs[i].0) == pairs[i].1))
  {
    hide NewMap, Denoted, FromAtom;
    NewMapIsMap(s, pairs);
    if s.hp + WordsOf(|pairs|) <= |s.mem| {
      CreateMeansIff(s, pairs);
      if DistinctKeys(pairs) {
        DenotedAt(pairs, i);
      }
    }
  }

  /** A term of another kind, or a map term outside the buffer. */
  predicate NoMap(mem: seq<Word>, w: Word) {
    Tag(w) != Map || Addr(w) >= |mem|
  }

  /**
   On a term that is no map a put makes a map of the one pair if its three words fit, a removal gives
   the term back, the size is zero, and a get gives `undefined`, or nil for a map term out of range.
   */
  lemma NoMapAnswers(s: State, w: Word, key: Word, value: Word)
    requires s.hp <= |s.mem| < MAX_WORDS && NoMap(s.mem, w)
    ensures MapReadable(s.mem, w)
    ensures var (w', s') := MapPutResult(s, w, key, value);
            && (w' == NIL <==> s.hp + WordsOf(1) > |s.mem|)
            && (w' == NIL ==> s' == s)
            && (w' != NIL ==> s'.hp == s.hp + WordsOf(1) && AgreeBelow(s.mem, s'.mem, s.hp)
                              && Represents(s', w', map[key := value]))
    ensures MapRemoveResult(s, w, key) == (w, s)
    ensures ToSmall(MapSizeResult(s.mem, w)) == 0
    ensures MapGetResult(s.mem, w, key) == if Tag(w) == Map then FromAtom(2) else FromAtom(3)
  {
    hide NewMap;
    var pairs := [(key, value)];
    NewMapIsMap(s, pairs);
    SmallRoundTrip(0, NIL);
    SinglePair(key, value);
  }

  lemma SinglePair(key: Word, value: Word)
    ensures DistinctKeys([(key, value)]) && Denoted([(key, value)]) == map[key := value]
  {
    var pairs := [(key, value)];
    DenotedAt(pairs, 0);
    assert KeySet(pairs) == {key};
  }

  // ---- Maps that reach over the end of the buffer --------------------------------------------------

  /** How many of the `n` keys of the map at `p` lie in the buffer. */
  function KeysInside(mem: seq<Word>, p: nat, n: nat): nat {
    var room := if p + 1 < |mem| then (|mem| - p) / 2 else 0;
    if n < room then n else room
  }

  /** Pairs are read key by key as far as the buffer goes; a value beyond its end reads as zero. */
  lemma {:induction false} PairsReadInside(mem: seq<Word>, p: nat, i: nat, n: nat)
    requires i <= n
    ensures var pairs, inside := PairsFrom(mem, p, i, n), KeysInside(mem, p, n);
            && |pairs| == (if i < inside then inside - i else 0)
            && forall j :: 0 <= j < |pairs| ==>
                var k := p + 1 + 2 * (i + j);
                pairs[j] == (mem[k], if k + 1 < |mem| then mem[k + 1] else 0)
    decreases n - i
  {
    if i < n {
      PairsReadInside(mem, p, i + 1, n);
    }
  }

  /** A get answers the value of the first equal key in the buffer, or `undefined` if that value lies beyond it. */
  lemma {:induction false} SearchFinds(mem: seq<Word>, p: nat, key: Word, i: nat, n: nat, j: nat)
    requires i <= j <= n
    requires forall k :: i <= k < j ==> p + 1 + 2 * k >= |mem| || mem[p + 1 + 2 * k] != key
    requires j < n ==> p + 1 + 2 * j < |mem| && mem[p + 1 + 2 * j] == key
    ensures Search(mem, p, key, i, n) ==
            if j < n && p + 2 + 2 * j < |mem| then mem[p + 2 + 2 * j] else FromAtom(3)
    decreases j - i
  {
    if i < j {
      SearchFinds(mem, p, key, i + 1, n, j);
    }
  }
}
