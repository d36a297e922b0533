/** The map instructions of the interpreter: flat key/value arrays on the heap, copied on update. */
module HeapMaps {
  import opened Wrappers
  import opened Words
  import opened ProcessHeaps

  type Pair = (Word, Word)

  const MAX_REGISTERS := 64

  // ---- Reading and writing flat maps ---------------------------------------------------------

  /** `6 | (words << 8)` on 64 bits. */
  function MapHeader(n: nat): Word {
    (1 + 2 * n) * 0x100 % TWO_64 + 6
  }

  /** `((header >> 8) - 1) / 2`, for headers that do not make the subtraction underflow. */
  function PairCount(header: Word): nat
    requires header >= 0x100
  {
    (header / 0x100 - 1) / 2
  }

  lemma PairCountOfHeader(n: nat)
    requires 1 + 2 * n < MAX_WORDS
    ensures MapHeader(n) >= 0x100 && PairCount(MapHeader(n)) == n
  {
    assert MapHeader(n) == (1 + 2 * n) * 0x100 + 6;
  }

  /** Pairs `i..n` of the map at `ptr`: keys outside the buffer are skipped, values outside read as 0. */
  function PairsFrom(mem: seq<Word>, ptr: nat, i: nat, n: nat): seq<Pair>
    decreases n - i
  {
    if i >= n then []
    else
      var k := ptr + 1 + 2 * i;
      (if k < |mem| then [(mem[k], if k + 1 < |mem| then mem[k + 1] else 0)] else []) + PairsFrom(mem, ptr, i + 1, n)
  }

  lemma PairsFromStep(mem: seq<Word>, ptr: nat, i: nat, n: nat, before: seq<Pair>)
    requires i < n
    ensures var k := ptr + 1 + 2 * i;
            before + PairsFrom(mem, ptr, i, n) ==
              (if k < |mem| then before + [(mem[k], if k + 1 < |mem| then mem[k + 1] else 0)] else before)
              + PairsFrom(mem, ptr, i + 1, n)
  {
  }

  lemma PairsFromEnd(mem: seq<Word>, ptr: nat, n: nat, before: seq<Pair>)
    ensures before + PairsFrom(mem, ptr, n, n) == before
  {
  }

  /** The interpreter subtracts one from the header's size; with a smaller header the subtraction overflows. */
  predicate MapReadable(mem: seq<Word>, w: Word) {
    Tag(w) == Map && Addr(w) < |mem| ==> mem[Addr(w)] >= 0x100
  }

  function ExistingPairs(mem: seq<Word>, w: Word): Option<seq<Pair>>
    requires MapReadable(mem, w)
  {
    if Tag(w) == Map && Addr(w) < |mem| then Some(PairsFrom(mem, Addr(w), 0, PairCount(mem[Addr(w)]))) else None
  }

  function WritePair(mem: seq<Word>, ptr: nat, index: nat, pair: Pair): seq<Word> {
    Put(Put(mem, ptr + 1 + index * 2, pair.0), ptr + 1 + index * 2 + 1, pair.1)
  }

  function WritePairs(mem: seq<Word>, ptr: nat, pairs: seq<Pair>): (mem': seq<Word>)
    ensures |mem'| == |mem|
  {
    if pairs == [] then mem
    else WritePair(WritePairs(mem, ptr, pairs[..|pairs| - 1]), ptr, |pairs| - 1, pairs[|pairs| - 1])
  }

  datatype State = State(mem: seq<Word>, hp: nat)

  /** A fresh map of `pairs`, or nil with nothing changed when it does not fit. */
  function NewMap(s: State, pairs: seq<Pair>): (r: (Word, State)) {
    var words := 1 + 2 * |pairs|;
    if s.hp + words <= |s.mem| then
      (Pointer(s.hp, Map), State(WritePairs(Put(s.mem, s.hp, MapHeader(|pairs|)), s.hp, pairs), s.hp + words))
    else (NIL, s)
  }

  predicate HasKey(pairs: seq<Pair>, key: Word) {
    exists i :: 0 <= i < |pairs| && pairs[i].0 == key
  }

  /** The first position holding `key`, or the length. */
  function KeyIndex(pairs: seq<Pair>, key: Word): (i: nat)
    ensures i <= |pairs| && (i < |pairs| ==> pairs[i].0 == key)
    ensures forall j :: 0 <= j < i ==> pairs[j].0 != key
  {
    if pairs == [] || pairs[0].0 == key then 0 else 1 + KeyIndex(pairs[1..], key)
  }

  /** The pairs MapPut writes: a key that is already there keeps its old value. */
  function PutPairs(pairs: seq<Pair>, key: Word, value: Word): seq<Pair> {
    if HasKey(pairs, key) then pairs else pairs + [(key, value)]
  }

  function RemovePairs(pairs: seq<Pair>, key: Word): seq<Pair> {
    var i := KeyIndex(pairs, key);
    if i < |pairs| then pairs[..i] + pairs[i + 1..] else pairs
  }

  // ---- The instructions as functions of the heap ----------------------------------------------

  function MapPutResult(s: State, m: Word, key: Word, value: Word): (Word, State)
    requires MapReadable(s.mem, m)
  {
    match ExistingPairs(s.mem, m)
    case Some(pairs) => NewMap(s, PutPairs(pairs, key, value))
    case None => NewMap(s, [(key, value)])
  }

  function MapRemoveResult(s: State, m: Word, key: Word): (Word, State)
    requires MapReadable(s.mem, m)
  {
    match ExistingPairs(s.mem, m)
    case Some(pairs) => NewMap(s, RemovePairs(pairs, key))
    case None => (m, s)
  }

  /** Linear search from pair `i`; a key whose value lies outside the buffer counts as absent. */
  function Search(mem: seq<Word>, ptr: nat, key: Word, i: nat, n: nat): Word
    decreases n - i
  {
    var k := ptr + 1 + 2 * i;
    if i >= n then FromAtom(ATOM_UNDEFINED)
    else if k < |mem| && mem[k] == key then (if k + 1 < |mem| then mem[k + 1] else FromAtom(ATOM_UNDEFINED))
    else Search(mem, ptr, key, i + 1, n)
  }

  function MapGetResult(mem: seq<Word>, m: Word, key: Word): Word
    requires MapReadable(mem, m)
  {
    if Tag(m) != Map then FromAtom(ATOM_UNDEFINED)
    else if Addr(m) >= |mem| then NIL
    else Search(mem, Addr(m), key, 0, PairCount(mem[Addr(m)]))
  }

  function MapSizeResult(mem: seq<Word>, m: Word): Word
    requires MapReadable(mem, m)
  {
    FromSmall(if Tag(m) == Map && Addr(m) < |mem| then PairCount(mem[Addr(m)]) else 0)
  }

  method FindKey(pairs: seq<Pair>, key: Word) returns (idx: nat)
    ensures idx == KeyIndex(pairs, key)
  {
    idx := 0;
    while idx < |pairs| && pairs[idx].0 != key
      invariant idx <= KeyIndex(pairs, key)
    {
      idx := idx + 1;
    }
  }

  /** The pairs except the one at `idx`. */
  method Without(pairs: seq<Pair>, idx: nat) returns (kept: seq<Pair>)
    ensures kept == if idx < |pairs| then pairs[..idx] + pairs[idx + 1..] else pairs
  {
    kept := [];
    for i := 0 to |pairs|
      invariant kept == if i <= idx then pairs[..i] else pairs[..idx] + pairs[idx + 1..i]
    {
      if i != idx {
        kept := kept + [pairs[i]];
      }
    }
    assert pairs[..|pairs|] == pairs;
  }

  // ---- The interpreter context ----------------------------------------------------------------

  class ExecContext {
    const x: array<Word>
    const heap: ProcessHeap

    constructor (heap: ProcessHeap)
      requires heap.Valid()
      ensures this.heap == heap && fresh(x) && Valid()
    {
      this.heap := heap;
      x := new Word[MAX_REGISTERS](_ => NIL);
    }

    ghost predicate Valid()
      reads heap
    {
      x.Length == MAX_REGISTERS && heap.Valid() && x != heap.fromSpace && x != heap.toSpace
    }

    ghost function Now(): State
      reads heap, heap.fromSpace, heap.toSpace
    {
      State(heap.Mem(), heap.hp)
    }

    function GetX(reg: nat): Word
      reads x
    {
      if reg < x.Length then x[reg] else NIL
    }

    method SetX(reg: nat, value: Word)
      modifies x
      ensures x[..] == Put(old(x[..]), reg, value)
    {
      if reg < x.Length {
        x[reg] := value;
      }
    }

    /** `alloc_map` followed by one `write_map_pair` per pair, or nil. */
    method AllocAndWrite(pairs: seq<Pair>) returns (w: Word)
      requires Valid()
      modifies heap`hp, heap.ActiveBuffer()
      ensures Valid() && (w, Now()) == NewMap(old(Now()), pairs)
    {
      hide MapHeader, Put;
      var pos := heap.Alloc(1 + 2 * |pairs|);
      if pos.None? {
        return NIL;
      }
      heap.SetWord(pos.value, MapHeader(|pairs|));
      ghost var mem := heap.Mem();
      for i := 0 to |pairs|
        invariant Valid() && heap.hp == old(heap.hp) + 1 + 2 * |pairs|
        invariant heap.Mem() == WritePairs(mem, pos.value, pairs[..i])
      {
        heap.SetWord(pos.value + 1 + i * 2, pairs[i].0);
        heap.SetWord(pos.value + 1 + i * 2 + 1, pairs[i].1);
        assert pairs[..i + 1][..i] == pairs[..i];
      }
      assert pairs[..|pairs|] == pairs;
      w := Pointer(pos.value, Map);
    }

    method ReadPairs(ptr: nat, n: nat) returns (pairs: seq<Pair>)
      requires Valid()
      ensures pairs == PairsFrom(heap.Mem(), ptr, 0, n)
    {
      hide PairsFrom;
      pairs := [];
      ghost var mem := heap.Mem();
      for i := 0 to n
        invariant pairs + PairsFrom(mem, ptr, i, n) == PairsFrom(mem, ptr, 0, n)
      {
        PairsFromStep(mem, ptr, i, n, pairs);
        var k := heap.GetWord(ptr + 1 + i * 2);
        if k.Some? {
          var v := heap.GetWord(ptr + 1 + i * 2 + 1);
          pairs := pairs + [(k.value, if v.Some? then v.value else 0)];
        }
      }
      PairsFromEnd(mem, ptr, n, pairs);
    }

    /** Keys in the first `numPairs` registers, values in the next `numPairs`. */
    method MapCreate(dest: nat, numPairs: nat)
      requires Valid()
      modifies heap`hp, heap.ActiveBuffer(), x
      ensures Valid()
      ensures var pairs := old(RegisterPairs(numPairs));
              var r := NewMap(old(Now()), pairs);
              Now() == r.1 && x[..] == Put(old(x[..]), dest, r.0)
    {
      var pairs := RegisterPairs(numPairs);
      var w := AllocAndWrite(pairs);
      SetX(dest, w);
    }

    function RegisterPairs(n: nat): (pairs: seq<Pair>)
      reads x
      ensures |pairs| == n
      ensures forall i :: 0 <= i < n ==> pairs[i].0 == GetX(i) && pairs[i].1 == GetX(n + i)
    {
      seq(n, i requires 0 <= i < n reads x => (GetX(i), GetX(n + i)))
    }

    method MapPut(dest: nat, mapReg: nat, keyReg: nat, valueReg: nat) returns (panics: bool)
      requires Valid()
      modifies heap`hp, heap.ActiveBuffer(), x
      ensures Valid() && panics == !old(MapReadable(heap.Mem(), GetX(mapReg)))
      ensures panics ==> x[..] == old(x[..]) && Now() == old(Now())
      ensures !panics ==>
              var r := MapPutResult(old(Now()), old(GetX(mapReg)), old(GetX(keyReg)), old(GetX(valueReg)));
              Now() == r.1 && x[..] == Put(old(x[..]), dest, r.0)
    {
      hide MapHeader, NewMap, PairsFrom;
      var m, key, value := GetX(mapReg), GetX(keyReg), GetX(valueReg);
      var pairs := [(key, value)];
      var header := heap.GetWord(Addr(m));
      if Tag(m) == Map && header.Some? {
        if header.value < 0x100 {
          return true;
        }
        pairs := ReadPairs(Addr(m), PairCount(header.value));
        var found := false;
        for i := 0 to |pairs|
          invariant found <==> exists j :: 0 <= j < i && pairs[j].0 == key
        {
          found := found || pairs[i].0 == key;
        }
        if !found {
          pairs := pairs + [(key, value)];
        }
      }
      var w := AllocAndWrite(pairs);
      SetX(dest, w);
      panics := false;
    }

    method MapGet(dest: nat, mapReg: nat, keyReg: nat) returns (panics: bool)
      requires Valid()
      modifies x
      ensures Valid() && panics == !old(MapReadable(heap.Mem(), GetX(mapReg)))
      ensures panics ==> x[..] == old(x[..])
      ensures !panics ==> x[..] == Put(old(x[..]), dest, MapGetResult(heap.Mem(), old(GetX(mapReg)), old(GetX(keyReg))))
    {
      hide MapHeader;
      var m, key := GetX(mapReg), GetX(keyReg);
      var value := FromAtom(ATOM_UNDEFINED);
      if Tag(m) == Map {
        var header := heap.GetWord(Addr(m));
        if header.Some? {
          if header.value < 0x100 {
            return true;
          }
          var n := PairCount(header.value);
          ghost var result := Search(heap.Mem(), Addr(m), key, 0, n);
          var i := 0;
          while i < n
            invariant 0 <= i <= n && value == FromAtom(ATOM_UNDEFINED)
            invariant Search(heap.Mem(), Addr(m), key, i, n) == result && x[..] == old(x[..])
          {
            var stored := heap.GetWord(Addr(m) + 1 + i * 2);
            if stored == Some(key) {
              var val := heap.GetWord(Addr(m) + 1 + i * 2 + 1);
              if val.Some? {
                value := val.value;
              }
              break;
            }
            i := i + 1;
          }
          assert value == result;
        } else {
          value := NIL;
        }
      }
      SetX(dest, value);
      panics := false;
    }

    method MapRemove(dest: nat, mapReg: nat, keyReg: nat) returns (panics: bool)
      requires Valid()
      modifies heap`hp, heap.ActiveBuffer(), x
      ensures Valid() && panics == !old(MapReadable(heap.Mem(), GetX(mapReg)))
      ensures panics ==> x[..] == old(x[..]) && Now() == old(Now())
      ensures !panics ==>
              var r := MapRemoveResult(old(Now()), old(GetX(mapReg)), old(GetX(keyReg)));
              Now() == r.1 && x[..] == Put(old(x[..]), dest, r.0)
    {
      hide MapHeader, NewMap, PairsFrom, KeyIndex;
      var m, key := GetX(mapReg), GetX(keyReg);
      var w := m;
      var header := heap.GetWord(Addr(m));
      if Tag(m) == Map && header.Some? {
        if header.value < 0x100 {
          return true;
        }
        var pairs := ReadPairs(Addr(m), PairCount(header.value));
        var idx := FindKey(pairs, key);
        var kept := Without(pairs, idx);
        w := AllocAndWrite(kept);
      }
      SetX(dest, w);
      panics := false;
    }

    method MapSize(dest: nat, mapReg: nat) returns (panics: bool)
      requires Valid()
      modifies x
      ensures Valid() && panics == !old(MapReadable(heap.Mem(), GetX(mapReg)))
      ensures panics ==> x[..] == old(x[..])
      ensures !panics ==> x[..] == Put(old(x[..]), dest, MapSizeResult(heap.Mem(), old(GetX(mapReg))))
    {
      var m := GetX(mapReg);
      var size := 0;
      if Tag(m) == Map {
        var header := heap.GetWord(Addr(m));
        if header.Some? {
          if header.value < 0x100 {
            return true;
          }
          size := PairCount(header.value);
        }
      }
      SetX(dest, FromSmall(size));
      panics := false;
    }
  }
}
