/**
 Terms and heap words of the virtual machine: 64-bit words whose low three bits are a tag and
 whose remaining bits are an address, an atom index or a signed small integer.
 */
module Words {
  const TWO_32 := 0x1_0000_0000
  const TWO_61 := 0x2000_0000_0000_0000
  const TWO_63 := 0x8000_0000_0000_0000
  const TWO_64 := 0x1_0000_0000_0000_0000

  type U32 = n: int | 0 <= n < 0x1_0000_0000
  type Word = w: int | 0 <= w < 0x1_0000_0000_0000_0000

  datatype TermTag = SmallInteger | Atom | Cons | Tuple | Float | Binary | Map | Fun

  function Tag(w: Word): TermTag {
    match w % 8
    case 0 => SmallInteger
    case 1 => Atom
    case 2 => Cons
    case 3 => Tuple
    case 4 => Float
    case 5 => Binary
    case 6 => Map
    case _ => Fun
  }

  function TagBits(t: TermTag): nat {
    match t
    case SmallInteger => 0
    case Atom => 1
    case Cons => 2
    case Tuple => 3
    case Float => 4
    case Binary => 5
    case Map => 6
    case Fun => 7
  }

  /** The payload above the tag bits, `word >> 3`. */
  function Addr(w: Word): nat {
    w / 8
  }

  /** The 24-bit size field of a header, `(header >> 8) & 0xFFFFFF`. */
  function SizeField(h: Word): nat {
    h / 0x100 % 0x100_0000
  }

  /** `(addr << 3) | tag` on 64 bits: address bits above 2^61 are shifted out. */
  function Pointer(addr: nat, tag: TermTag): Word {
    (addr % TWO_61) * 8 + TagBits(tag)
  }

  function FromAtom(index: U32): Word {
    index * 8 + 1
  }

  const ATOM_NIL := 2
  const ATOM_UNDEFINED := 3
  const ATOM_NORMAL := 8
  const NIL: Word := FromAtom(ATOM_NIL)

  const SMALL_MIN := -0x0800_0000_0000_0000
  const SMALL_MAX := 0x07FF_FFFF_FFFF_FFFF

  /** The word for a small integer: the low 61 bits of `x`, shifted above the tag. */
  function FromSmall(x: int): Word {
    (x % TWO_61) * 8
  }

  /** The signed reading of the payload, an arithmetic shift right by three. */
  function ToSmall(w: Word): int {
    if w < TWO_63 then w / 8 else w / 8 - TWO_61
  }

  lemma PointerParts(addr: nat, tag: TermTag)
    requires addr < TWO_61
    ensures Addr(Pointer(addr, tag)) == addr && Tag(Pointer(addr, tag)) == tag
  {
    assert Pointer(addr, tag) == addr * 8 + TagBits(tag);
  }

  /** A small integer word is determined by its value, and every value in range comes back. */
  lemma SmallRoundTrip(x: int, w: Word)
    requires SMALL_MIN <= x <= SMALL_MAX
    ensures Tag(FromSmall(x)) == SmallInteger && ToSmall(FromSmall(x)) == x
    ensures Tag(w) == SmallInteger ==> FromSmall(ToSmall(w)) == w
  {
    if x >= 0 {
      assert x % TWO_61 == x;
    } else {
      assert x % TWO_61 == x + TWO_61;
    }
    if Tag(w) == SmallInteger {
      assert w == 8 * (w / 8);
      assert (w / 8) % TWO_61 == w / 8;
      assert (w / 8 - TWO_61) % TWO_61 == w / 8;
    }
  }
}
