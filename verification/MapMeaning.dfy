/** Heap maps refine persistent finite maps. */
module MapMeaning {
  import opened Wrappers
  import opened Words
  import opened ProcessHeaps
  import opened HeapGrowth
  import opened HeapMaps

  /** `w` is a map term for `pairs` lying below `hp`. */
  ghost predicate IsMap(s: State, w: Word, pairs: seq<Pair>) {
    && s.hp <= |s.mem| < MAX_WORDS && Tag(w) == Map
    && Addr(w) + 1 + 2 * |pairs| <= s.hp && s.mem[Addr(w)] == MapHeader(|pairs|)
    && PairsAt(s.mem, Addr(w), pairs)
  }

  ghost predicate PairsAt(mem: seq<Word>, p: nat, pairs: seq<Pair>) {
    && p + 1 + 2 * |pairs| <= |mem|
    && forall i :: 0 <= i < |pairs| ==> mem[p + 1 + 2 * i] == pairs[i].0 && mem[p + 2 + 2 * i] == pairs[i].1
  }

  ghost predicate DistinctKeys(pairs: seq<Pair>) {
    forall i, j :: 0 <= i < j < |pairs| ==> pairs[i].0 != pairs[j].0
  }

  ghost function KeySet(pairs: seq<Pair>): set<Word> {
    set i | 0 <= i < |pairs| :: pairs[i].0
  }

  /** The finite map a list of pairs stands for; the first occurrence of a key wins. */
  ghost function Denoted(pairs: seq<Pair>): (m: map<Word, Word>)
    ensures m.Keys == KeySet(pairs)
  {
    map k: Word | k in KeySet(pairs) :: pairs[KeyIndex(pairs, k)].1
  }

  lemma DenotedAt(pairs: seq<Pair>, i: nat)
    requires DistinctKeys(pairs) && i < |pairs|
    ensures pairs[i].0 in Denoted(pairs) && Denoted(pairs)[pairs[i].0] == pairs[i].1
  {
    assert pairs[i].0 in KeySet(pairs);
    var j := KeyIndex(pairs, pairs[i].0);
    assert j == i;
  }

  /** Getting keys from `w` in state `s` reads the finite map `m`; no key is stored twice if `distinct`. */
  ghost predicate Stands(s: State, w: Word, m: map<Word, Word>, distinct: bool) {
    exists pairs: seq<Pair> :: IsMap(s, w, pairs) && (distinct ==> DistinctKeys(pairs)) && Denoted(pairs) == m
  }

  /** `w` denotes the finite map `m` in state `s`. */
  ghost predicate Represents(s: State, w: Word, m: map<Word, Word>) {
    Stands(s, w, m, true)
  }

  // ---- Building ----------------------------------------------------------------------------

  lemma {:induction false} WritePairsAt(mem: seq<Word>, p: nat, pairs: seq<Pair>)
    requires p + 1 + 2 * |pairs| <= |mem|
    ensures var mem' := WritePairs(mem, p, pairs);
            PairsAt(mem', p, pairs) && forall i :: 0 <= i <= p ==> mem'[i] == mem[i]
    decreases |pairs|
  {
    if pairs != [] {
      WritePairsAt(mem, p, pairs[..|pairs| - 1]);
    }
  }

  lemma NewMapIsMap(s: State, pairs: seq<Pair>)
    requires s.hp <= |s.mem| < MAX_WORDS
    ensures var (w, s') := NewMap(s, pairs);
            && AgreeBelow(s.mem, s'.mem, s.hp) && s.hp <= s'.hp <= |s'.mem| == |s.mem|
            && (w == NIL <==> s.hp + 1 + 2 * |pairs| > |s.mem|)
            && (w == NIL ==> s' == s)
            && (w != NIL ==> IsMap(s', w, pairs) && s'.hp == s.hp + 1 + 2 * |pairs|)
  {
    hide MapHeader;
    if s.hp + 1 + 2 * |pairs| <= |s.mem| {
      WritePairsAt(Put(s.mem, s.hp, MapHeader(|pairs|)), s.hp, pairs);
      PointerParts(s.hp, Map);
    }
  }

  // ---- Reading -----------------------------------------------------------------------------

  lemma {:induction false} PairsFromIs(mem: seq<Word>, p: nat, pairs: seq<Pair>, i: nat)
    requires PairsAt(mem, p, pairs) && i <= |pairs|
    ensures PairsFrom(mem, p, i, |pairs|) == pairs[i..]
    decreases |pairs| - i
  {
    if i < |pairs| {
      assert mem[p + 1 + 2 * i] == pairs[i].0 && mem[p + 2 + 2 * i] == pairs[i].1;
      assert pairs[i..] == [pairs[i]] + pairs[i + 1..];
      PairsFromIs(mem, p, pairs, i + 1);
    }
  }

  lemma ExistingPairsOfMap(s: State, w: Word, pairs: seq<Pair>)
    requires IsMap(s, w, pairs)
    ensures MapReadable(s.mem, w) && ExistingPairs(s.mem, w) == Some(pairs)
  {
    hide MapHeader, PairCount;
    PairCountOfHeader(|pairs|);
    PairsFromIs(s.mem, Addr(w), pairs, 0);
    assert pairs[0..] == pairs;
  }

  lemma {:induction false} SearchIs(mem: seq<Word>, p: nat, pairs: seq<Pair>, key: Word, i: nat)
    requires PairsAt(mem, p, pairs) && i <= KeyIndex(pairs, key)
    ensures Search(mem, p, key, i, |pairs|) ==
            if KeyIndex(pairs, key) < |pairs| then pairs[KeyIndex(pairs, key)].1 else FromAtom(ATOM_UNDEFINED)
    decreases |pairs| - i
  {
    if i < |pairs| {
      assert mem[p + 1 + 2 * i] == pairs[i].0 && mem[p + 2 + 2 * i] == pairs[i].1;
    }
    if i < KeyIndex(pairs, key) {
      SearchIs(mem, p, pairs, key, i + 1);
    }
  }

  lemma KeyIndexFinds(pairs: seq<Pair>, key: Word)
    ensures key in Denoted(pairs) <==> KeyIndex(pairs, key) < |pairs|
    ensures HasKey(pairs, key) <==> key in Denoted(pairs)
  {
    if KeyIndex(pairs, key) < |pairs| {
      assert pairs[KeyIndex(pairs, key)].0 in KeySet(pairs);
    }
  }

  /** MapGet and MapSize read exactly the finite map; an absent key gives `undefined`. */
  lemma ReadsMatch(s: State, w: Word, m: map<Word, Word>)
    requires Represents(s, w, m)
    ensures MapReadable(s.mem, w)
    ensures forall k: Word :: MapGetResult(s.mem, w, k) == if k in m then m[k] else FromAtom(ATOM_UNDEFINED)
    ensures ToSmall(MapSizeResult(s.mem, w)) == |m|
  {
    hide MapHeader, PairCount, FromSmall, ToSmall, FromAtom, IsMap, Denoted;
    var pairs: seq<Pair> :| IsMap(s, w, pairs) && DistinctKeys(pairs) && Denoted(pairs) == m;
    forall k: Word ensures MapReadable(s.mem, w) &&
                           MapGetResult(s.mem, w, k) == if k in m then m[k] else FromAtom(ATOM_UNDEFINED) {
      GetOfMap(s, w, pairs, k);
    }
    SizeOfMap(s, w, pairs);
  }

  lemma GetOfMap(s: State, w: Word, pairs: seq<Pair>, k: Word)
    requires IsMap(s, w, pairs)
    ensures MapReadable(s.mem, w)
    ensures MapGetResult(s.mem, w, k) == if k in Denoted(pairs) then Denoted(pairs)[k] else FromAtom(ATOM_UNDEFINED)
  {
    hide MapHeader, PairCount, FromAtom;
    PairCountOfHeader(|pairs|);
    KeyIndexFinds(pairs, k);
    SearchIs(s.mem, Addr(w), pairs, k, 0);
  }

  lemma SizeOfMap(s: State, w: Word, pairs: seq<Pair>)
    requires IsMap(s, w, pairs)
    ensures MapReadable(s.mem, w)
    ensures ToSmall(MapSizeResult(s.mem, w)) == |Denoted(pairs)| <==> DistinctKeys(pairs)
  {
    hide MapHeader, PairCount;
    PairCountOfHeader(|pairs|);
    SmallRoundTrip(|pairs|, NIL);
    DistinctCount(pairs);
    assert |Denoted(pairs).Keys| == |Denoted(pairs)|;
  }

  lemma KeySetSnoc(pairs: seq<Pair>, p: Pair)
    ensures KeySet(pairs + [p]) == KeySet(pairs) + {p.0}
    ensures DistinctKeys(pairs + [p]) <==> DistinctKeys(pairs) && p.0 !in KeySet(pairs)
  {
    var pairs' := pairs + [p];
    assert pairs'[|pairs|] == p && forall i :: 0 <= i < |pairs| ==> pairs'[i] == pairs[i];
    if DistinctKeys(pairs') {
      forall i | 0 <= i < |pairs| ensures pairs[i].0 != p.0 {
        assert pairs'[i].0 != pairs'[|pairs|].0;
      }
    }
  }

  lemma {:induction false} DistinctCount(pairs: seq<Pair>)
    ensures |KeySet(pairs)| <= |pairs|
    ensures |KeySet(pairs)| == |pairs| <==> DistinctKeys(pairs)
    decreases |pairs|
  {
    if pairs != [] {
      hide KeySet, DistinctKeys;
      var n := |pairs| - 1;
      DistinctCount(pairs[..n]);
      assert pairs == pairs[..n] + [pairs[n]];
      KeySetSnoc(pairs[..n], pairs[n]);
    }
  }

  /**
   Whatever pairs a map is created from, getting a key reads its first value; the size is that of the
   finite map exactly when no key is repeated.
   */
  lemma CreateMeansIff(s: State, pairs: seq<Pair>)
    requires s.hp + 1 + 2 * |pairs| <= |s.mem| < MAX_WORDS
    ensures var (w, s') := NewMap(s, pairs);
            && MapReadable(s'.mem, w)
            && (forall k: Word :: MapGetResult(s'.mem, w, k) ==
                  if k in Denoted(pairs) then Denoted(pairs)[k] else FromAtom(ATOM_UNDEFINED))
            && (ToSmall(MapSizeResult(s'.mem, w)) == |Denoted(pairs)| <==> DistinctKeys(pairs))
  {
    hide NewMap, Denoted, DistinctKeys, IsMap, FromAtom, ToSmall;
    NewMapIsMap(s, pairs);
    var (w, s') := NewMap(s, pairs);
    SizeOfMap(s', w, pairs);
    forall k: Word
      ensures MapGetResult(s'.mem, w, k) ==
              if k in Denoted(pairs) then Denoted(pairs)[k] else FromAtom(ATOM_UNDEFINED)
    {
      GetOfMap(s', w, pairs, k);
    }
  }

  // ---- Updating ----------------------------------------------------------------------------

  lemma {:induction false} KeyIndexAppend(pairs: seq<Pair>, p: Pair, k: Word)
    ensures KeyIndex(pairs + [p], k) ==
            if KeyIndex(pairs, k) < |pairs| then KeyIndex(pairs, k) else if p.0 == k then |pairs| else |pairs| + 1
    decreases |pairs|
  {
    if pairs != [] {
      assert (pairs + [p])[1..] == pairs[1..] + [p];
      KeyIndexAppend(pairs[1..], p, k);
    } else {
      assert [] + [p] == [p] && [p][1..] == [];
    }
  }

  /** What a put on any pairs stands for, repeated keys or not. */
  lemma PutDenotes(pairs: seq<Pair>, key: Word, value: Word)
    ensures var m := Denoted(pairs); Denoted(PutPairs(pairs, key, value)) == if key in m then m else m[key := value]
  {
    hide Denoted, KeySet, KeyIndex;
    KeyIndexFinds(pairs, key);
    var m, pairs' := Denoted(pairs), pairs + [(key, value)];
    if key !in m {
      forall k: Word ensures k in Denoted(pairs') <==> k in m || k == key
                     ensures k in Denoted(pairs') ==> Denoted(pairs')[k] == if k == key then value else m[k] {
        KeyIndexAppend(pairs, (key, value), k);
        KeyIndexFinds(pairs', k);
        KeyIndexFinds(pairs, k);
        DenotedLookup(pairs, k);
        DenotedLookup(pairs', k);
      }
    }
  }

  lemma DenotedLookup(pairs: seq<Pair>, k: Word)
    ensures k in Denoted(pairs) ==> KeyIndex(pairs, k) < |pairs| && Denoted(pairs)[k] == pairs[KeyIndex(pairs, k)].1
  {
    KeyIndexFinds(pairs, k);
  }

  /** MapPut agrees with the mathematical update exactly when the key is absent or already has that value. */
  lemma PutMatchesIff(pairs: seq<Pair>, key: Word, value: Word)
    ensures DistinctKeys(pairs) ==> DistinctKeys(PutPairs(pairs, key, value))
    ensures var m := Denoted(pairs);
            && Denoted(PutPairs(pairs, key, value)) == (if key in m then m else m[key := value])
            && (Denoted(PutPairs(pairs, key, value)) == m[key := value] <==> key !in m || m[key] == value)
  {
    hide Denoted, KeySet;
    var m := Denoted(pairs);
    PutDenotes(pairs, key, value);
    KeyIndexFinds(pairs, key);
    assert key in m ==> m[key := value][key] == value;
  }

  /** The key is stored at most once. */
  predicate KeyOnce(pairs: seq<Pair>, key: Word) {
    forall i, j :: 0 <= i < j < |pairs| ==> !(pairs[i].0 == key && pairs[j].0 == key)
  }

  /** What getting `k` finds in a list of pairs. */
  function ValueOf(pairs: seq<Pair>, k: Word): Option<Word> {
    var i := KeyIndex(pairs, k);
    if i < |pairs| then Some(pairs[i].1) else None
  }

  lemma ValueOfCons(p: Pair, rest: seq<Pair>, k: Word)
    ensures ValueOf([p] + rest, k) == if p.0 == k then Some(p.1) else ValueOf(rest, k)
  {
    assert ([p] + rest)[1..] == rest;
  }

  lemma KeyIndexCons(p: Pair, rest: seq<Pair>, k: Word)
    ensures KeyIndex([p] + rest, k) == if p.0 == k then 0 else 1 + KeyIndex(rest, k)
  {
    assert ([p] + rest)[1..] == rest;
  }

  lemma RemoveCons(p: Pair, rest: seq<Pair>, key: Word)
    ensures RemovePairs([p] + rest, key) == if p.0 == key then rest else [p] + RemovePairs(rest, key)
  {
    hide KeyIndex;
    var pairs, i := [p] + rest, KeyIndex(rest, key);
    KeyIndexCons(p, rest, key);
    if p.0 == key {
      assert pairs[..0] + pairs[1..] == rest;
    } else if i < |rest| {
      assert pairs[..i + 1] + pairs[i + 2..] == [p] + (rest[..i] + rest[i + 1..]);
    }
  }

  lemma {:induction false} RemovedValue(pairs: seq<Pair>, key: Word, k: Word)
    requires k != key
    ensures ValueOf(RemovePairs(pairs, key), k) == ValueOf(pairs, k)
    decreases |pairs|
  {
    if pairs != [] {
      hide ValueOf, RemovePairs;
      var p, rest := pairs[0], pairs[1..];
      assert pairs == [p] + rest;
      RemovedValue(rest, key, k);
      RemoveCons(p, rest, key);
      ValueOfCons(p, rest, k);
      ValueOfCons(p, RemovePairs(rest, key), k);
    }
  }

  /** What a removal leaves under other keys, and when anything is left under the key itself. */
  lemma RemoveDenotes(pairs: seq<Pair>, key: Word)
    ensures var m, m' := Denoted(pairs), Denoted(RemovePairs(pairs, key));
            && (forall k: Word :: k != key ==> (k in m' <==> k in m) && (k in m ==> m'[k] == m[k]))
            && (key in m' <==> !KeyOnce(pairs, key))
  {
    hide Denoted, KeySet, RemovePairs;
    var kept := RemovePairs(pairs, key);
    forall k: Word | k != key
      ensures k in Denoted(kept) <==> k in Denoted(pairs)
      ensures k in Denoted(pairs) ==> Denoted(kept)[k] == Denoted(pairs)[k]
    {
      RemovedValue(pairs, key, k);
      KeyIndexFinds(pairs, k);
      KeyIndexFinds(kept, k);
      DenotedLookup(pairs, k);
      DenotedLookup(kept, k);
    }
    KeyIndexFinds(kept, key);
    RemovedKeyIff(pairs, key);
  }

  lemma RemovedKeyIff(pairs: seq<Pair>, key: Word)
    ensures HasKey(RemovePairs(pairs, key), key) <==> !KeyOnce(pairs, key)
  {
    var n, kept := KeyIndex(pairs, key), RemovePairs(pairs, key);
    if i :| 0 <= i < |kept| && kept[i].0 == key {
      assert n <= i && pairs[i + 1].0 == key && pairs[n].0 == key;
    }
    if i, j :| 0 <= i < j < |pairs| && pairs[i].0 == key && pairs[j].0 == key {
      assert kept[j - 1].0 == key;
    }
  }

  /** MapRemove deletes the key and nothing else exactly when the key is not stored twice. */
  lemma RemoveMatchesIff(pairs: seq<Pair>, key: Word)
    ensures Denoted(RemovePairs(pairs, key)) == Denoted(pairs) - {key} <==> KeyOnce(pairs, key)
  {
    hide Denoted, RemovePairs, KeyOnce;
    RemoveDenotes(pairs, key);
    if Denoted(RemovePairs(pairs, key)) == Denoted(pairs) - {key} {
      assert key !in Denoted(pairs) - {key};
    }
  }

  /** On distinct keys MapRemove deletes the key and nothing else, and keys stay distinct. */
  lemma RemoveMatches(pairs: seq<Pair>, key: Word)
    requires DistinctKeys(pairs)
    ensures DistinctKeys(RemovePairs(pairs, key))
    ensures Denoted(RemovePairs(pairs, key)) == Denoted(pairs) - {key}
  {
    RemoveMatchesIff(pairs, key);
  }

  lemma MapUnchanged(s: State, s': State, w: Word, m: map<Word, Word>, distinct: bool)
    requires Stands(s, w, m, distinct) && AgreeBelow(s.mem, s'.mem, s.hp) && s.hp <= s'.hp <= |s'.mem| < MAX_WORDS
    ensures Stands(s', w, m, distinct)
  {
    hide MapHeader, Denoted;
    var pairs: seq<Pair> :|
      IsMap(s, w, pairs) && (distinct ==> DistinctKeys(pairs)) && Denoted(pairs) == m;
    assert IsMap(s', w, pairs);
  }

  // ---- Whole runs --------------------------------------------------------------------------

  /** Instructions over the map terms produced so far, named by their position. */
  datatype MapOp =
    | Create(pairs: seq<Pair>)
    | PutOp(source: nat, key: Word, value: Word)
    | RemoveOp(source: nat, key: Word)

  /** A map term, what getting keys from it should read, and whether no key is stored twice in it. */
  datatype Handed = Handed(term: Word, meaning: map<Word, Word>, distinct: bool)

  /** The heap together with every map term handed out so far. */
  datatype Store = Store(s: State, terms: seq<Handed>)

  ghost predicate HandedOk(s: State, h: Handed) {
    Stands(s, h.term, h.meaning, h.distinct)
  }

  ghost predicate StoreOk(st: Store) {
    && st.s.hp <= |st.s.mem| < MAX_WORDS
    && forall i :: 0 <= i < |st.terms| ==> HandedOk(st.s, st.terms[i])
  }

  predicate OpOk(st: Store, op: MapOp) {
    match op
    case Create(_) => true
    case PutOp(i, _, _) => i < |st.terms|
    case RemoveOp(i, _) => i < |st.terms|
  }

  /** One instruction: what the heap does, and what the new term should read. */
  ghost function OpResult(st: Store, op: MapOp): (State, Handed)
    requires StoreOk(st) && OpOk(st, op)
  {
    match op
    case Create(pairs) =>
      var (w, s') := NewMap(st.s, pairs);
      (s', Handed(w, Denoted(pairs), DistinctKeys(pairs)))
    case PutOp(i, key, value) =>
      var h := st.terms[i];
      HandedReadable(st.s, h);
      var (w, s') := MapPutResult(st.s, h.term, key, value);
      (s', Handed(w, if key in h.meaning then h.meaning else h.meaning[key := value], h.distinct))
    case RemoveOp(i, key) =>
      var h := st.terms[i];
      HandedReadable(st.s, h);
      var (w, s') := MapRemoveResult(st.s, h.term, key);
      (s', Handed(w, MeaningWithout(ExistingPairs(st.s.mem, h.term).value, h.meaning, key), h.distinct))
  }

  /** A key stored twice keeps its second value, any other key is gone. */
  ghost function MeaningWithout(pairs: seq<Pair>, m: map<Word, Word>, key: Word): map<Word, Word> {
    RemoveDenotes(pairs, key);
    if KeyOnce(pairs, key) then m - {key} else m[key := Denoted(RemovePairs(pairs, key))[key]]
  }

  lemma HandedReadable(s: State, h: Handed)
    requires HandedOk(s, h)
    ensures MapReadable(s.mem, h.term) && ExistingPairs(s.mem, h.term).Some?
  {
    hide IsMap, DistinctKeys, Denoted;
    var pairs: seq<Pair> :|
      IsMap(s, h.term, pairs) && (h.distinct ==> DistinctKeys(pairs)) && Denoted(pairs) == h.meaning;
    ExistingPairsOfMap(s, h.term, pairs);
  }

  ghost function Step(st: Store, op: MapOp): Store
    requires StoreOk(st)
  {
    if !OpOk(st, op) then st
    else
      var (s', h) := OpResult(st, op);
      Store(s', if h.term == NIL then st.terms else st.terms + [h])
  }

  lemma OpRefines(st: Store, op: MapOp)
    requires StoreOk(st) && OpOk(st, op)
    ensures var (s', h) := OpResult(st, op);
            && AgreeBelow(st.s.mem, s'.mem, st.s.hp) && st.s.hp <= s'.hp <= |s'.mem| < MAX_WORDS
            && (h.term != NIL ==> HandedOk(s', h))
  {
    hide IsMap, NewMap, Denoted, DistinctKeys, KeyOnce, HasKey;
    var out: seq<Pair>;
    match op {
      case Create(pairs) =>
        out := pairs;
      case PutOp(i, key, value) =>
        var pairs := PairsOf(st.s, st.terms[i]);
        PutMatchesIff(pairs, key, value);
        out := PutPairs(pairs, key, value);
      case RemoveOp(i, key) =>
        var pairs := PairsOf(st.s, st.terms[i]);
        RemoveRefines(pairs, key);
        out := RemovePairs(pairs, key);
    }
    NewMapIsMap(st.s, out);
  }

  lemma PairsOf(s: State, h: Handed) returns (pairs: seq<Pair>)
    requires HandedOk(s, h)
    ensures MapReadable(s.mem, h.term) && ExistingPairs(s.mem, h.term) == Some(pairs)
    ensures Denoted(pairs) == h.meaning && (h.distinct ==> DistinctKeys(pairs))
  {
    hide IsMap, DistinctKeys, Denoted;
    pairs :| IsMap(s, h.term, pairs) && (h.distinct ==> DistinctKeys(pairs)) && Denoted(pairs) == h.meaning;
    ExistingPairsOfMap(s, h.term, pairs);
  }

  lemma RemoveRefines(pairs: seq<Pair>, key: Word)
    ensures Denoted(RemovePairs(pairs, key)) == MeaningWithout(pairs, Denoted(pairs), key)
    ensures DistinctKeys(pairs) ==> DistinctKeys(RemovePairs(pairs, key))
  {
    hide Denoted, KeyOnce, DistinctKeys, RemovePairs;
    RemoveDenotes(pairs, key);
    RemoveMatchesIff(pairs, key);
    if DistinctKeys(pairs) {
      RemoveMatches(pairs, key);
    }
  }

  lemma StepKeeps(st: Store, op: MapOp)
    requires StoreOk(st)
    ensures StoreOk(Step(st, op)) && st.terms <= Step(st, op).terms
  {
    hide Stands, OpResult;
    if OpOk(st, op) {
      OpRefines(st, op);
      var st' := Step(st, op);
      forall i | 0 <= i < |st.terms| ensures HandedOk(st'.s, st.terms[i]) {
        MapUnchanged(st.s, st'.s, st.terms[i].term, st.terms[i].meaning, st.terms[i].distinct);
      }
    }
  }

  ghost function Run(st: Store, ops: seq<MapOp>): Store
    requires StoreOk(st)
    decreases |ops|
  {
    if ops == [] then st
    else
      StepKeeps(st, ops[0]);
      Run(Step(st, ops[0]), ops[1..])
  }

  /**
   Over any run of map instructions, repeated keys and failed allocations included, every term ever
   handed out still stands for the finite map it was handed out for.
   */
  lemma {:induction false} RunRefines(st: Store, ops: seq<MapOp>)
    requires StoreOk(st)
    ensures StoreOk(Run(st, ops)) && st.terms <= Run(st, ops).terms
    decreases |ops|
  {
    if ops != [] {
      StepKeeps(st, ops[0]);
      RunRefines(Step(st, ops[0]), ops[1..]);
    }
  }

  /** What such a term shows: every key, and the size exactly if no key is stored twice. */
  lemma HandedReads(s: State, h: Handed)
    requires HandedOk(s, h)
    ensures MapReadable(s.mem, h.term)
    ensures forall k: Word :: MapGetResult(s.mem, h.term, k) ==
              if k in h.meaning then h.meaning[k] else FromAtom(ATOM_UNDEFINED)
    ensures h.distinct ==> ToSmall(MapSizeResult(s.mem, h.term)) == |h.meaning|
  {
    hide IsMap, DistinctKeys, Denoted, FromAtom, ToSmall;
    var pairs: seq<Pair> :|
      IsMap(s, h.term, pairs) && (h.distinct ==> DistinctKeys(pairs)) && Denoted(pairs) == h.meaning;
    SizeOfMap(s, h.term, pairs);
    forall k: Word
      ensures MapGetResult(s.mem, h.term, k) == if k in h.meaning then h.meaning[k] else FromAtom(ATOM_UNDEFINED)
    {
      GetOfMap(s, h.term, pairs, k);
    }
  }

  /** A map created with one key twice has size 2, and removing the key brings up the second value. */
  lemma RepeatedKeyShows()
    ensures var key, s := FromAtom(4), State(seq(12, _ => 0), 0);
            var (w, s') := NewMap(s, [(key, FromSmall(1)), (key, FromSmall(2))]);
            && MapReadable(s'.mem, w) && ToSmall(MapSizeResult(s'.mem, w)) == 2
            && var (v, s'') := MapRemoveResult(s', w, key);
               v != NIL && MapReadable(s''.mem, v) && MapGetResult(s''.mem, v, key) == FromSmall(2)
  {
    hide FromSmall, ToSmall, NewMap, PairCount, Denoted;
    var key, s := FromAtom(4), State(seq(12, _ => 0), 0);
    var pairs := [(key, FromSmall(1)), (key, FromSmall(2))];
    var (w, s') := NewMap(s, pairs);
    NewMapIsMap(s, pairs);
    ExistingPairsOfMap(s', w, pairs);
    PairCountOfHeader(2);
    SmallRoundTrip(2, NIL);
    assert pairs[0].0 == key;
    assert RemovePairs(pairs, key) == [(key, FromSmall(2))];
    NewMapIsMap(s', [(key, FromSmall(2))]);
    var (v, s'') := MapRemoveResult(s', w, key);
    GetOfMap(s'', v, [(key, FromSmall(2))], key);
    KeyIndexFinds([(key, FromSmall(2))], key);
    DenotedLookup([(key, FromSmall(2))], key);
  }

  /** A put on a bound key, whatever the value, gives a new term for the old map. */
  lemma PutOnBoundKey(s: State, w: Word, m: map<Word, Word>, key: Word, value: Word)
    requires Represents(s, w, m) && key in m && MapReadable(s.mem, w)
    ensures var (w', s') := MapPutResult(s, w, key, value);
            w' != NIL ==> Represents(s', w', m) && MapReadable(s'.mem, w') && MapGetResult(s'.mem, w', key) == m[key]
  {
    hide IsMap, NewMap, Denoted, DistinctKeys, PairCount;
    var pairs: seq<Pair> :| IsMap(s, w, pairs) && DistinctKeys(pairs) && Denoted(pairs) == m;
    ExistingPairsOfMap(s, w, pairs);
    PutMatchesIff(pairs, key, value);
    HpInside(s, w, pairs);
    NewMapIsMap(s, PutPairs(pairs, key, value));
    var (w', s') := MapPutResult(s, w, key, value);
    if w' != NIL {
      ReadsMatch(s', w', m);
    }
  }

  lemma HpInside(s: State, w: Word, pairs: seq<Pair>)
    requires IsMap(s, w, pairs)
    ensures s.hp <= |s.mem| < MAX_WORDS
  {
  }

  /** On a heap with a one-pair map: after putting 1 at its key, getting the key still gives 0. */
  lemma PutKeepsOldValue()
    ensures var key, s := FromAtom(4), State([MapHeader(1), FromAtom(4), FromSmall(0), 0, 0, 0], 3);
            && MapReadable(s.mem, Pointer(0, Map))
            && var (w, s') := MapPutResult(s, Pointer(0, Map), key, FromSmall(1));
               && w != NIL && MapReadable(s'.mem, w) && MapGetResult(s'.mem, w, key) == FromSmall(0) != FromSmall(1)
  {
    hide PairCount, FromSmall, NewMap;
    var key, pairs := FromAtom(4), [(FromAtom(4), FromSmall(0))];
    var s, w := State([MapHeader(1), key, FromSmall(0), 0, 0, 0], 3), Pointer(0, Map);
    assert IsMap(s, w, pairs) && DistinctKeys(pairs);
    assert pairs[0].0 == key;
    DenotedAt(pairs, 0);
    assert Represents(s, w, Denoted(pairs));
    ExistingPairsOfMap(s, w, pairs);
    NewMapIsMap(s, PutPairs(pairs, key, FromSmall(1)));
    PutOnBoundKey(s, w, Denoted(pairs), key, FromSmall(1));
    SmallRoundTrip(0, NIL);
    SmallRoundTrip(1, NIL);
  }
}
