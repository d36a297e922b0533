/** The atom table run by one thread: two maps and a counter. */
module AtomTables {
  import opened Wrappers
  import opened Words

  const MAX_ATOMS := 0x10_0000
  const RESERVED_ATOMS := 18

  const RESERVED: seq<string> := [
    "false", "true", "nil", "undefined", "ok", "error", "badarg", "exit", "normal", "kill",
    "message_queue_len", "heap_size", "stack_size", "reductions", "status", "running", "waiting", "exiting"]

  datatype AtomError = LimitExceeded

  datatype Table = Table(names: map<string, U32>, indices: map<U32, string>, next: U32)

  /** The two maps are inverse bijections between the interned names and exactly `0..next`. */
  ghost predicate Bijection(t: Table) {
    && t.next <= MAX_ATOMS
    && (forall n :: n in t.names ==> t.names[n] < t.next && t.names[n] in t.indices && t.indices[t.names[n]] == n)
    && (forall i: U32 :: i < t.next ==> i in t.indices && t.indices[i] in t.names && t.names[t.indices[i]] == i)
    && (forall i: U32 :: i in t.indices ==> i < t.next)
  }

  function Added(t: Table, name: string): Table
    requires t.next < MAX_ATOMS
  {
    Table(t.names[name := t.next], t.indices[t.next := name], t.next + 1)
  }

  /** `intern` without interference. */
  function AtomicIntern(t: Table, name: string): (Result<U32, AtomError>, Table) {
    if name in t.names then (Ok(t.names[name]), t)
    else if t.next >= MAX_ATOMS then (Err(LimitExceeded), t)
    else (Ok(t.next), Added(t, name))
  }

  lemma InternKeepsBijection(t: Table, name: string)
    requires Bijection(t)
    ensures Bijection(AtomicIntern(t, name).1)
  {
  }

  /**
   An intern fails exactly for a new name on a full table, which it leaves alone. Otherwise the name is
   in the table at the index it answers, a new one at the next index, and all other names are as before.
   */
  lemma InternEffect(t: Table, name: string)
    requires Bijection(t)
    ensures var (r, t') := AtomicIntern(t, name);
            && (r.Err? <==> name !in t.names && t.next == 0x10_0000)
            && (r.Err? || name in t.names ==> t' == t)
            && (r.Ok? ==> name in t'.names && t'.names[name] == r.value && t'.names.Keys == t.names.Keys + {name})
            && (r.Ok? && name !in t.names ==> r.value == t.next && t'.next == t.next + 1)
            && (forall n :: n in t.names ==> n in t'.names && t'.names[n] == t.names[n])
  {
  }

  /** Equal indices exactly for equal names. */
  lemma IndicesAgreeIff(t: Table, a: string, b: string)
    requires Bijection(t) && a in t.names && b in t.names
    ensures t.names[a] == t.names[b] <==> a == b
  {
  }

  /** The first `n` of some reserved names, registered at their positions. */
  function Registered(reserved: seq<string>, n: nat): Table
    requires n <= |reserved| <= RESERVED_ATOMS
  {
    if n == 0 then Table(map[], map[], RESERVED_ATOMS)
    else
      var t := Registered(reserved, n - 1);
      t.(names := t.names[reserved[n - 1] := n - 1], indices := t.indices[n - 1 := reserved[n - 1]])
  }

  function Initial(): Table {
    Registered(RESERVED, RESERVED_ATOMS)
  }

  lemma ReservedDistinct(i: nat, j: nat)
    requires i < j < |RESERVED|
    ensures RESERVED[i] != RESERVED[j]
  {
  }

  /** Exactly the first `n` names are registered. */
  ghost predicate RegisteredOk(t: Table, reserved: seq<string>, n: nat)
    requires n <= |reserved|
  {
    && t.next == RESERVED_ATOMS
    && (forall i: U32 :: i in t.indices <==> i < n)
    && (forall i: U32 :: i < n ==> t.indices[i] == reserved[i])
    && (forall s :: s in t.names ==> t.names[s] < n && reserved[t.names[s]] == s)
    && (forall i :: 0 <= i < n ==> reserved[i] in t.names)
  }

  lemma RegisterOne(t: Table, reserved: seq<string>, n: nat)
    requires n < |reserved| <= RESERVED_ATOMS && RegisteredOk(t, reserved, n)
    ensures var t' := t.(names := t.names[reserved[n] := n], indices := t.indices[n := reserved[n]]);
            RegisteredOk(t', reserved, n + 1)
  {
  }

  lemma {:induction false} RegisteredPrefix(reserved: seq<string>, n: nat)
    requires n <= |reserved| <= RESERVED_ATOMS
    ensures RegisteredOk(Registered(reserved, n), reserved, n)
    decreases n
  {
    if n > 0 {
      RegisteredPrefix(reserved, n - 1);
      RegisterOne(Registered(reserved, n - 1), reserved, n - 1);
    }
  }

  /** The table starts out as a bijection on the reserved atoms. */
  lemma InitialBijection()
    ensures Bijection(Initial()) && Initial().next == RESERVED_ATOMS
  {
    hide Registered;
    RegisteredPrefix(RESERVED, RESERVED_ATOMS);
    var t := Initial();
    forall i: U32 | i < t.next ensures t.indices[i] in t.names && t.names[t.indices[i]] == i {
      var j := t.names[RESERVED[i]];
      if i < j {
        ReservedDistinct(i, j);
      } else if j < i {
        ReservedDistinct(j, i);
      }
    }
  }

  // ---- The predefined constants -------------------------------------------------------------------

  /** The names of the predefined atom constants, in the order of their values. */
  const PREDEFINED: seq<string> := [
    "false", "true", "nil", "undefined", "ok", "error", "badarg", "exit", "normal", "kill",
    "message_queue_len", "heap_size", "stack_size", "reductions", "status", "running", "waiting", "exiting",
    "garbage_collecting", "suspended", "dead", "low", "high", "max", "badmatch", "case_clause",
    "if_clause", "function_clause", "minor", "major"]

  /** A new table knows a predefined constant by its name exactly if the constant is below 18. */
  lemma PredefinedIff(i: U32)
    requires i < |PREDEFINED|
    ensures (i in Initial().indices && Initial().indices[i] == PREDEFINED[i]) <==> i < 18
  {
    hide Registered;
    RegisteredPrefix(RESERVED, RESERVED_ATOMS);
  }

  /** The constants this model uses are known. */
  lemma UsedConstants()
    ensures var names := Initial().names;
            && "nil" in names && names["nil"] == ATOM_NIL && NIL == FromAtom(ATOM_NIL)
            && "undefined" in names && names["undefined"] == ATOM_UNDEFINED
            && "normal" in names && names["normal"] == ATOM_NORMAL
  {
    hide Registered;
    RegisteredPrefix(RESERVED, RESERVED_ATOMS);
    InitialBijection();
    assert RESERVED[2] == "nil" && RESERVED[3] == "undefined" && RESERVED[8] == "normal";
    var t := Initial();
    assert t.names[t.indices[2]] == 2 && t.names[t.indices[3]] == 3 && t.names[t.indices[8]] == 8;
  }

  /** The first name interned after the reserved ones takes the value of the constant for `garbage_collecting`. */
  lemma FirstInternTakesConstant(name: string)
    requires name !in RESERVED
    ensures AtomicIntern(Initial(), name).0 == Ok(18) && PREDEFINED[18] == "garbage_collecting"
  {
    hide Registered;
    RegisteredPrefix(RESERVED, RESERVED_ATOMS);
  }

  class AtomTable {
    var names: map<string, U32>
    var indices: map<U32, string>
    var next: U32

    function View(): Table
      reads this
    {
      Table(names, indices, next)
    }

    constructor ()
      ensures View() == Initial()
    {
      names, indices, next := map[], map[], RESERVED_ATOMS;
      new;
      for i := 0 to |RESERVED|
        invariant View() == Registered(RESERVED, i)
      {
        RegisterStatic(RESERVED[i], i);
      }
    }

    method RegisterStatic(name: string, index: U32)
      modifies this
      ensures View() == Table(old(names)[name := index], old(indices)[index := name], old(next))
    {
      names := names[name := index];
      indices := indices[index := name];
    }

    method Intern(name: string) returns (r: Result<U32, AtomError>)
      modifies this
      ensures (r, View()) == AtomicIntern(old(View()), name)
    {
      if name in names {
        return Ok(names[name]);
      }
      if next >= MAX_ATOMS {
        return Err(LimitExceeded);
      }
      var index := next;
      next := next + 1;
      names := names[name := index];
      indices := indices[index := name];
      r := Ok(index);
    }

    /** On a bijective table: the one name interned at this index. */
    method Lookup(index: U32) returns (r: Option<string>)
      ensures forall n :: r == Some(n) <==> index in indices && indices[index] == n
      ensures Bijection(View()) ==> forall n :: r == Some(n) <==> n in names && names[n] == index
    {
      r := if index in indices then Some(indices[index]) else None;
    }

    /** On a bijective table: the one index whose name this is, so the two lookups undo each other. */
    method LookupName(name: string) returns (r: Option<U32>)
      ensures forall i: U32 :: r == Some(i) <==> name in names && names[name] == i
      ensures Bijection(View()) ==> forall i: U32 :: r == Some(i) <==> i in indices && indices[i] == name
    {
      r := if name in names then Some(names[name]) else None;
    }
  }
}
