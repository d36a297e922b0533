/**
 What a heap of cons cells and tuples denotes. A heap is a sequence of words of which the first
 `hp` are in use; a term is a word; the meaning of a term is what every access path from it finds.
 */
module HeapLayout {
  import opened Wrappers
  import opened Words

  /** `0x302`, the header `write_cons` stores. */
  const CONS_HEADER: Word := 0x302

  /** The header `write_tuple_header` stores: a 32-bit size above the sub-tag and tag bits. */
  function TupleHeader(arity: U32): Word {
    (1 + arity) % TWO_32 * 0x100 + 3
  }

  /** Words occupied by the object under a header, as every pass of the collector computes it. */
  function Size(h: Word): nat {
    match Tag(h)
    case Cons | Float => 3
    case Tuple | Map | Fun | Binary => SizeField(h)
    case _ => 1
  }

  predicate ValidHeader(h: Word) {
    Tag(h) == Cons || (Tag(h) == Tuple && SizeField(h) >= 1)
  }

  predicate IsPtr(w: Word) {
    Tag(w) == Cons || Tag(w) == Tuple
  }

  // ---- Access paths ----------------------------------------------------------------------

  /** Follow field numbers from a term; `None` when a step leaves the object it is taken in. */
  function Follow(mem: seq<Word>, w: Word, path: seq<nat>): Option<Word>
    decreases |path|
  {
    if path == [] then Some(w)
    else
      var p := Addr(w);
      if IsPtr(w) && p < |mem| && 1 <= path[0] < Size(mem[p]) && p + path[0] < |mem|
      then Follow(mem, mem[p + path[0]], path[1..])
      else None
  }

  /** Some path from `w` ends at a pointer to `p`. */
  ghost predicate ReachFrom(mem: seq<Word>, w: Word, p: nat) {
    exists path: seq<nat> :: PathTo(mem, w, path, p)
  }

  ghost predicate PathTo(mem: seq<Word>, w: Word, path: seq<nat>, p: nat) {
    var r := Follow(mem, w, path);
    r.Some? && IsPtr(r.value) && Addr(r.value) == p
  }

  /** The object at `p` is reachable from the roots. */
  ghost predicate Reachable(mem: seq<Word>, roots: seq<Word>, p: nat) {
    exists r: Word :: r in roots && ReachFrom(mem, r, p)
  }

  lemma ReachSelf(mem: seq<Word>, w: Word)
    requires IsPtr(w)
    ensures ReachFrom(mem, w, Addr(w))
  {
    assert PathTo(mem, w, [], Addr(w));
  }

  lemma ReachThroughField(mem: seq<Word>, w: Word, k: nat, q: nat)
    requires IsPtr(w) && Addr(w) < |mem| && 1 <= k < Size(mem[Addr(w)]) && Addr(w) + k < |mem|
    requires ReachFrom(mem, mem[Addr(w) + k], q)
    ensures ReachFrom(mem, w, q)
  {
    var path :| PathTo(mem, mem[Addr(w) + k], path, q);
    assert ([k] + path)[1..] == path;
    assert PathTo(mem, w, [k] + path, q);
  }

  // ---- Well-formed heaps -----------------------------------------------------------------

  /**
   `own` maps every word in use to the start of the object it belongs to: the objects tile
   `[0, hp)` without gap or overlap.
   */
  ghost predicate Layout(mem: seq<Word>, hp: nat, own: seq<nat>) {
    && |own| == hp <= |mem|
    && (forall i :: 0 <= i < hp ==> own[i] <= i < own[i] + Size(mem[own[i]]) <= hp)
    && (forall i :: 0 <= i < hp ==> ValidHeader(mem[own[i]]))
    && (forall i, j :: 0 <= i < hp && own[i] <= j < own[i] + Size(mem[own[i]]) ==> own[j] == own[i])
  }

  /** A term is an immediate, or points at the start of an object of its own kind. */
  ghost predicate TermOk(mem: seq<Word>, own: seq<nat>, w: Word)
    requires |own| <= |mem|
  {
    match Tag(w)
    case SmallInteger | Atom => true
    case Cons | Tuple => Addr(w) < |own| && own[Addr(w)] == Addr(w) && Tag(mem[Addr(w)]) == Tag(w)
    case _ => false
  }

  ghost predicate FieldsOk(mem: seq<Word>, own: seq<nat>)
    requires |own| <= |mem|
  {
    forall i {:trigger TermOk(mem, own, mem[i])} :: 0 <= i < |own| && own[i] != i ==> TermOk(mem, own, mem[i])
  }

  ghost predicate RootsOk(mem: seq<Word>, own: seq<nat>, roots: seq<Word>)
    requires |own| <= |mem|
  {
    forall r :: r in roots ==> TermOk(mem, own, r)
  }

  ghost predicate WellFormedBy(mem: seq<Word>, hp: nat, roots: seq<Word>, own: seq<nat>) {
    Layout(mem, hp, own) && FieldsOk(mem, own) && RootsOk(mem, own, roots)
  }

  /** A well-formed cons/tuple heap with a set of valid roots. Cycles and sharing are allowed. */
  ghost predicate WellFormed(mem: seq<Word>, hp: nat, roots: seq<Word>) {
    exists own: seq<nat> :: WellFormedBy(mem, hp, roots, own)
  }

  /** Every pointer field holds a smaller address than the object it is stored in. */
  ghost predicate DownwardBy(mem: seq<Word>, own: seq<nat>)
    requires |own| <= |mem|
  {
    forall i :: 0 <= i < |own| && own[i] != i && IsPtr(mem[i]) ==> Addr(mem[i]) < own[i]
  }

  ghost predicate Downward(mem: seq<Word>, hp: nat, roots: seq<Word>) {
    exists own: seq<nat> :: WellFormedBy(mem, hp, roots, own) && DownwardBy(mem, own)
  }

  /** The same tiling, read as a walk over the headers: the walk from `a` lands exactly on `hp`. */
  ghost predicate Tiled(mem: seq<Word>, a: nat, hp: nat)
    decreases hp - a
  {
    a == hp <= |mem| ||
    (a < hp <= |mem| && ValidHeader(mem[a]) && a + Size(mem[a]) <= hp && Tiled(mem, a + Size(mem[a]), hp))
  }

  /** The layout once one more object is placed at the end. */
  ghost function ExtendedLayout(mem: seq<Word>, a: nat, own: seq<nat>): (own': seq<nat>)
    requires Layout(mem, a, own) && a < |mem| && ValidHeader(mem[a]) && a + Size(mem[a]) <= |mem|
    ensures Layout(mem, a + Size(mem[a]), own')
    ensures own' == own + seq(Size(mem[a]), _ => a)
  {
    hide Size;
    own + seq(Size(mem[a]), _ => a)
  }

  lemma {:induction false} LayoutOfWalk(mem: seq<Word>, a: nat, hp: nat, own: seq<nat>) returns (full: seq<nat>)
    requires Layout(mem, a, own) && Tiled(mem, a, hp)
    ensures Layout(mem, hp, full)
    decreases hp - a
  {
    if a == hp {
      full := own;
    } else {
      full := LayoutOfWalk(mem, a + Size(mem[a]), hp, ExtendedLayout(mem, a, own));
    }
  }

  lemma {:induction false} WalkOfLayout(mem: seq<Word>, a: nat, hp: nat, own: seq<nat>)
    requires Layout(mem, hp, own) && a <= hp && (a < hp ==> own[a] == a)
    ensures Tiled(mem, a, hp)
    decreases hp - a
  {
    if a < hp {
      var b := a + Size(mem[a]);
      if b < hp {
        var s := own[b];  // an object reaching over b from below would overlap the one at a
        assert own[s] == s;
      }
      WalkOfLayout(mem, b, hp, own);
    }
  }

  /** Objects tile the used words exactly when the header walk from zero ends at `hp`. */
  lemma LayoutIffWalk(mem: seq<Word>, hp: nat)
    ensures (exists own: seq<nat> :: Layout(mem, hp, own)) <==> Tiled(mem, 0, hp)
  {
    if own: seq<nat> :| Layout(mem, hp, own) {
      WalkOfLayout(mem, 0, hp, own);
    }
    if Tiled(mem, 0, hp) {
      var own := LayoutOfWalk(mem, 0, hp, []);
    }
  }
}
