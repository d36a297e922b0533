/** External term encoding of immediates: small integers in three forms, atoms as decimal names. */
module Etf {
  import opened Wrappers
  import opened Words
  import opened Bytes

  const VERSION_MAGIC: Byte := 131
  const TAG_ATOM: Byte := 115
  const TAG_SMALL_INTEGER: Byte := 97
  const TAG_INTEGER: Byte := 98
  const TAG_SMALL_BIG: Byte := 110
  const TAG_LARGE_BIG: Byte := 111
  const TAG_NIL: Byte := 106

  const I32_MIN := -0x8000_0000
  const I32_MAX := 0x7FFF_FFFF

  /** `"atom_"`. */
  const ATOM_PREFIX: seq<Byte> := [0x61, 0x74, 0x6F, 0x6D, 0x5F]

  // ---- Decimal numerals ------------------------------------------------------------------------

  function Decimal(n: nat): (s: seq<Byte>)
    ensures |s| >= 1
  {
    if n < 10 then [0x30 + n] else Decimal(n / 10) + [0x30 + n % 10]
  }

  predicate IsDigit(b: Byte) {
    0x30 <= b <= 0x39
  }

  predicate AllDigits(s: seq<Byte>) {
    forall i :: 0 <= i < |s| ==> IsDigit(s[i])
  }

  function DigitsValue(s: seq<Byte>): nat
    requires AllDigits(s)
  {
    if s == [] then 0 else DigitsValue(s[..|s| - 1]) * 10 + (s[|s| - 1] - 0x30)
  }

  /** `str::parse::<u32>`: an optional plus sign and at least one digit, no overflow. */
  function ParsedU32(s: seq<Byte>): Option<U32> {
    var digits := if s != [] && s[0] == 0x2B then s[1..] else s;
    if digits == [] || !AllDigits(digits) || DigitsValue(digits) >= TWO_32 then None else Some(DigitsValue(digits))
  }

  lemma {:induction false} DecimalRoundTrip(n: nat)
    ensures AllDigits(Decimal(n)) && DigitsValue(Decimal(n)) == n
    decreases n
  {
    if n >= 10 {
      DecimalRoundTrip(n / 10);
      assert Decimal(n)[..|Decimal(n)| - 1] == Decimal(n / 10);
    } else {
      assert Decimal(n)[..0] == [];
    }
  }

  lemma {:induction false} DecimalLength(n: nat, k: nat)
    requires n < Pow10(k + 1)
    ensures |Decimal(n)| <= k + 1
    decreases k
  {
    if n >= 10 {
      DecimalLength(n / 10, k - 1);
    }
  }

  function Pow10(n: nat): nat {
    if n == 0 then 1 else 10 * Pow10(n - 1)
  }

  method ParseU32(s: seq<Byte>) returns (r: Option<U32>)
    ensures r == ParsedU32(s)
  {
    var start := if s != [] && s[0] == 0x2B then 1 else 0;
    ghost var digits := s[start..];
    assert s[0..] == s;
    if start == |s| {
      return None;
    }
    var value: U32 := 0;
    for i := start to |s|
      invariant AllDigits(s[start..i]) && value == DigitsValue(s[start..i])
    {
      assert s[start..i + 1][..i - start] == s[start..i];
      assert digits[i - start] == s[i];
      if !IsDigit(s[i]) {
        return None;
      }
      var next := value * 10 + (s[i] - 0x30);
      assert s[start..i + 1][i - start] == s[i];
      assert next == DigitsValue(s[start..i + 1]);
      if next >= TWO_32 {
        LongerIsLarger(digits, i + 1 - start);
        assert digits[..i + 1 - start] == s[start..i + 1];
        return None;
      }
      value := next;
    }
    assert s[start..|s|] == digits;
    r := Some(value);
  }

  lemma {:induction false} LongerIsLarger(s: seq<Byte>, i: nat)
    requires i <= |s|
    ensures AllDigits(s) ==> DigitsValue(s[..i]) <= DigitsValue(s)
    decreases |s| - i
  {
    if i < |s| {
      LongerIsLarger(s, i + 1);
      assert s[..i + 1][..i] == s[..i];
    } else {
      assert s[..i] == s;
    }
  }

  // ---- Encoding --------------------------------------------------------------------------------

  /** The bytes of `v`, least significant first, without leading zeros. */
  function Digits256(v: nat): seq<Byte> {
    if v == 0 then [] else [v % 0x100] + Digits256(v / 0x100)
  }

  function Reversed(s: seq<Byte>): seq<Byte> {
    if s == [] then [] else Reversed(s[1..]) + [s[0]]
  }

  function Abs(x: int): nat {
    if x < 0 then -x else x
  }

  /** At least one byte. */
  function Magnitude(value: int): seq<Byte> {
    if value == 0 then [0] else Digits256(Abs(value))
  }

  function BigIntegerBytes(value: int): seq<Byte> {
    var bytes := Magnitude(value);
    var sign := if value < 0 then 1 else 0;
    (if |bytes| > 0xFF then [TAG_LARGE_BIG] else [TAG_SMALL_BIG]) + [|bytes| % 0x100, sign] + Reversed(bytes)
  }

  function IntegerBytes(value: int): seq<Byte> {
    if 0 <= value <= 255 then [TAG_SMALL_INTEGER, value]
    else if I32_MIN <= value <= I32_MAX then [TAG_INTEGER] + BigEndian(value % TWO_32, 4)
    else BigIntegerBytes(value)
  }

  function ToAtom(w: Word): U32 {
    Addr(w) % TWO_32
  }

  function AtomName(index: U32): seq<Byte> {
    ATOM_PREFIX + Decimal(index)
  }

  function AtomBytes(index: U32): seq<Byte> {
    [TAG_ATOM] + BigEndian(|AtomName(index)| % 0x1_0000, 2) + AtomName(index)
  }

  predicate IsImmediate(w: Word) {
    Tag(w) == SmallInteger || Tag(w) == Atom
  }

  function Encoded(w: Word): seq<Byte>
    requires IsImmediate(w)
  {
    if Tag(w) == SmallInteger then IntegerBytes(ToSmall(w)) else AtomBytes(ToAtom(w))
  }

  method MagnitudeBytes(value: int) returns (bytes: seq<Byte>)
    ensures bytes == Magnitude(value)
  {
    bytes := [];
    var v := Abs(value);
    while v > 0
      invariant v >= 0 && bytes + Digits256(v) == Digits256(Abs(value))
    {
      assert bytes + ([v % 0x100] + Digits256(v / 0x100)) == bytes + [v % 0x100] + Digits256(v / 0x100);
      bytes := bytes + [v % 0x100];
      v := v / 0x100;
    }
    assert bytes + [] == bytes;
    if bytes == [] {
      bytes := [0];
    }
  }

  method EncodeBigInteger(value: int, buffer: seq<Byte>) returns (buf: seq<Byte>)
    ensures buf == buffer + BigIntegerBytes(value)
  {
    hide Magnitude, Reversed;
    var bytes := MagnitudeBytes(value);
    buf := buffer + [if |bytes| > 0xFF then TAG_LARGE_BIG else TAG_SMALL_BIG];
    buf := buf + [|bytes| % 0x100];
    buf := buf + [if value < 0 then 1 else 0];
    ghost var head := buf;
    assert bytes[..|bytes|] == bytes;
    for i := |bytes| downto 0
      invariant buf + Reversed(bytes[..i]) == head + Reversed(bytes)
    {
      ReversedSnoc(bytes[..i], bytes[i]);
      assert bytes[..i + 1] == bytes[..i] + [bytes[i]];
      assert buf + ([bytes[i]] + Reversed(bytes[..i])) == buf + [bytes[i]] + Reversed(bytes[..i]);
      buf := buf + [bytes[i]];
    }
    ReversedLength(bytes[..0]);
    assert buf + [] == buf;
    assert buf == buffer + BigIntegerBytes(value);
  }

  lemma {:induction false} ReversedLength(s: seq<Byte>)
    ensures |Reversed(s)| == |s|
    decreases |s|
  {
    if s != [] {
      ReversedLength(s[1..]);
    }
  }

  lemma {:induction false} ReversedSnoc(s: seq<Byte>, b: Byte)
    ensures Reversed(s + [b]) == [b] + Reversed(s)
    decreases |s|
  {
    if s == [] {
      assert [b][1..] == [];
    } else {
      ReversedSnoc(s[1..], b);
      assert (s + [b])[1..] == s[1..] + [b];
    }
  }

  method EncodeTerm(w: Word, buffer: seq<Byte>) returns (buf: seq<Byte>)
    requires IsImmediate(w)
    ensures buf == buffer + Encoded(w)
  {
    hide BigEndian, BigIntegerBytes, Decimal;
    if Tag(w) == SmallInteger {
      var value := ToSmall(w);
      if 0 <= value <= 255 {
        buf := buffer + [TAG_SMALL_INTEGER];
        buf := buf + [value];
      } else if I32_MIN <= value <= I32_MAX {
        buf := buffer + [TAG_INTEGER];
        buf := buf + BigEndian(value % TWO_32, 4);
      } else {
        buf := EncodeBigInteger(value, buffer);
      }
    } else {
      buf := buffer + [TAG_ATOM];
      var name := AtomName(ToAtom(w));
      buf := buf + BigEndian(|name| % 0x1_0000, 2);
      buf := buf + name;
    }
    assert buf == buffer + Encoded(w);
  }

  method Encode(w: Word, withVersion: bool) returns (bytes: seq<Byte>)
    requires IsImmediate(w)
    ensures bytes == (if withVersion then [VERSION_MAGIC] else []) + Encoded(w)
  {
    bytes := if withVersion then [VERSION_MAGIC] else [];
    bytes := EncodeTerm(w, bytes);
  }

  // ---- Decoding --------------------------------------------------------------------------------

  /** `Panics` stands for the assertion in `Term::from_small`; other term tags are outside this model. */
  datatype DecodeError = UnexpectedEnd | InvalidAtomEncoding | Panics | OtherTag(tag: Byte)

  datatype Read = Failed(error: DecodeError) | Item(term: Word, next: nat)

  /** `from_small`, which panics outside the small range. */
  function SmallItem(x: int, next: nat): Read {
    if SMALL_MIN <= x <= SMALL_MAX then Item(FromSmall(x), next) else Failed(Panics)
  }

  /** A 64-bit pattern read as a signed integer. */
  function AsI64(x: nat): int
    requires x < TWO_64
  {
    if x < TWO_63 then x else x - TWO_64
  }

  /** A 32-bit pattern read as a signed integer. */
  function AsI32(x: nat): int
    requires x < TWO_32
  {
    if x <= I32_MAX then x else x - TWO_32
  }

  /** Base-256 accumulation in 64 bits: digits shifted out at the top are lost. */
  function Accumulated(s: seq<Byte>): (x: nat)
    ensures x < TWO_64
  {
    if s == [] then 0 else (Accumulated(s[..|s| - 1]) * 0x100 + s[|s| - 1]) % TWO_64
  }

  function BigItem(magnitude: nat, sign: Byte, next: nat): Read
    requires magnitude < TWO_64
  {
    SmallItem(if sign == 0 then AsI64(magnitude) else -AsI64(magnitude), next)
  }

  /** Length and sign byte, then that many digits. */
  function BigAt(bytes: seq<Byte>, offset: nat): Read {
    if offset + 2 > |bytes| then Failed(UnexpectedEnd)
    else
      var arity := bytes[offset];
      if offset + 2 + arity > |bytes| then Failed(UnexpectedEnd)
      else BigItem(Accumulated(bytes[offset + 2..offset + 2 + arity]), bytes[offset + 1], offset + 2 + arity)
  }

  function Hash(s: seq<Byte>): nat {
    if s == [] then 0 else (Hash(s[..|s| - 1]) * 31 + s[|s| - 1]) % TWO_64
  }

  /** `atom_N` gives index N, any other name a hash below 0xFFFF. */
  function AtomIndex(name: seq<Byte>): U32 {
    var n := if |name| >= 5 && name[..5] == ATOM_PREFIX then ParsedU32(name[5..]) else None;
    match n
    case Some(i) => i
    case None => Hash(name) % 0xFFFF
  }

  function NameLength(high: int, low: int): int {
    high * 0x100 + low
  }

  function AtomAt(bytes: seq<Byte>, offset: nat): Read {
    if offset + 2 > |bytes| then Failed(UnexpectedEnd)
    else
      var len := NameLength(bytes[offset], bytes[offset + 1]);
      var end := offset + 2 + len;
      if end > |bytes| then Failed(UnexpectedEnd)
      else if !ValidUtf8(bytes[offset + 2..end]) then Failed(InvalidAtomEncoding)
      else Item(FromAtom(AtomIndex(bytes[offset + 2..end])), end)
  }

  function IntegerAt(bytes: seq<Byte>, offset: nat): Read {
    if offset + 4 > |bytes| then Failed(UnexpectedEnd)
    else
      Widths();
      SmallItem(AsI32(FromBigEndian(bytes[offset..offset + 4])), offset + 4)
  }

  function TermAt(bytes: seq<Byte>, offset: nat): Read {
    if offset >= |bytes| then Failed(UnexpectedEnd)
    else
      var tag, next := bytes[offset], offset + 1;
      if tag == TAG_ATOM then AtomAt(bytes, next)
      else if tag == TAG_SMALL_INTEGER then
        (if next >= |bytes| then Failed(UnexpectedEnd) else SmallItem(bytes[next], next + 1))
      else if tag == TAG_INTEGER then IntegerAt(bytes, next)
      else if tag == TAG_SMALL_BIG || tag == TAG_LARGE_BIG then BigAt(bytes, next)
      else if tag == TAG_NIL then Item(NIL, next)
      else Failed(OtherTag(tag))
  }

  /** An optional version byte, then one term; later bytes are not looked at. */
  function Decoded(bytes: seq<Byte>): Read {
    if bytes == [] then Failed(UnexpectedEnd)
    else TermAt(bytes, if bytes[0] == VERSION_MAGIC then 1 else 0)
  }

  method DecodeBig(bytes: seq<Byte>, start: nat) returns (r: Read)
    ensures r == BigAt(bytes, start)
  {
    var offset := start;
    if offset + 2 > |bytes| {
      return Failed(UnexpectedEnd);
    }
    var arity := bytes[offset];
    var sign := bytes[offset + 1];
    offset := offset + 2;
    if offset + arity > |bytes| {
      return Failed(UnexpectedEnd);
    }
    var value := 0;
    for i := 0 to arity
      invariant value == Accumulated(bytes[offset..offset + i])
    {
      assert bytes[offset..offset + i + 1][..i] == bytes[offset..offset + i];
      value := (value * 0x100 + bytes[offset + i]) % TWO_64;
    }
    offset := offset + arity;
    r := SmallItem(if sign == 0 then AsI64(value) else -AsI64(value), offset);
  }

  method DecodeAtom(bytes: seq<Byte>, start: nat) returns (r: Read)
    ensures r == AtomAt(bytes, start)
  {
    hide ParsedU32, ValidUtf8, FromAtom;
    var offset := start;
    if offset + 2 > |bytes| {
      return Failed(UnexpectedEnd);
    }
    var len := NameLength(bytes[offset], bytes[offset + 1]);
    offset := offset + 2;
    if offset + len > |bytes| {
      return Failed(UnexpectedEnd);
    }
    var name := bytes[offset..offset + len];
    offset := offset + len;
    if !ValidUtf8(name) {
      return Failed(InvalidAtomEncoding);
    }
    if |name| >= 5 && name[..5] == ATOM_PREFIX {
      var n := ParseU32(name[5..]);
      if n.Some? {
        return Item(FromAtom(n.value), offset);
      }
    }
    var hash := 0;
    for i := 0 to |name|
      invariant hash == Hash(name[..i])
    {
      assert name[..i + 1][..i] == name[..i];
      hash := (hash * 31 + name[i]) % TWO_64;
    }
    assert name[..|name|] == name;
    r := Item(FromAtom(hash % 0xFFFF), offset);
  }

  method Decode(bytes: seq<Byte>) returns (r: Read)
    ensures r == Decoded(bytes)
  {
    hide AtomAt, IntegerAt, BigAt, SmallItem;
    var offset := 0;
    if offset >= |bytes| {
      return Failed(UnexpectedEnd);
    }
    if bytes[offset] == VERSION_MAGIC {
      offset := offset + 1;
    }
    if offset >= |bytes| {
      return Failed(UnexpectedEnd);
    }
    var tag := bytes[offset];
    offset := offset + 1;
    if tag == TAG_ATOM {
      r := DecodeAtom(bytes, offset);
    } else if tag == TAG_SMALL_INTEGER {
      r := if offset >= |bytes| then Failed(UnexpectedEnd) else SmallItem(bytes[offset], offset + 1);
    } else if tag == TAG_INTEGER {
      r := IntegerAt(bytes, offset);
    } else if tag == TAG_SMALL_BIG || tag == TAG_LARGE_BIG {
      r := DecodeBig(bytes, offset);
    } else if tag == TAG_NIL {
      r := Item(NIL, offset);
    } else {
      r := Failed(OtherTag(tag));
    }
  }

  // ---- Round trip ------------------------------------------------------------------------------

  lemma {:induction false} DigitsReadBack(v: nat, n: nat)
    requires v < Pow256(n) <= TWO_64
    ensures |Digits256(v)| <= n && Accumulated(Reversed(Digits256(v))) == v
    decreases n
  {
    if v > 0 {
      DigitsReadBack(v / 0x100, n - 1);
      var s := Digits256(v);
      assert s[1..] == Digits256(v / 0x100);
      assert Reversed(s)[..|Reversed(s)| - 1] == Reversed(s[1..]);
    }
  }

  lemma BigReadBack(before: seq<Byte>, value: int)
    requires -TWO_63 < value < TWO_63 && value != 0
    ensures var bytes := before + BigIntegerBytes(value);
            |before| < |bytes| && bytes[|before|] == TAG_SMALL_BIG
            && BigAt(bytes, |before| + 1) == SmallItem(value, |bytes|)
  {
    hide Digits256, Reversed, Accumulated;
    Widths();
    var digits := Magnitude(value);
    DigitsReadBack(Abs(value), 8);
    ReversedLength(digits);
    var bytes, p := before + BigIntegerBytes(value), |before| + 1;
    var sign := if value < 0 then 1 else 0;
    assert bytes == (before + [TAG_SMALL_BIG, |digits|, sign]) + Reversed(digits);
    assert bytes[p + 2..p + 2 + |digits|] == Reversed(digits);
  }

  lemma IntegerReadBack(before: seq<Byte>, value: int)
    requires -TWO_63 < value < TWO_63
    ensures TermAt(before + IntegerBytes(value), |before|) == SmallItem(value, |before| + |IntegerBytes(value)|)
  {
    hide BigEndian, FromBigEndian, BigIntegerBytes, BigAt, AtomAt, FromSmall;
    Widths();
    var bytes := before + IntegerBytes(value);
    if 0 <= value <= 255 {
    } else if I32_MIN <= value <= I32_MAX {
      BigEndianRoundTrip(value % TWO_32, 4);
      assert bytes[|before| + 1..|before| + 5] == BigEndian(value % TWO_32, 4);
      assert AsI32(value % TWO_32) == value;
    } else {
      BigReadBack(before, value);
    }
  }

  lemma AtomNameIndex(index: U32)
    ensures var name := AtomName(index);
            |name| < 0x100 && ValidUtf8(name) && AtomIndex(name) == index
  {
    hide ValidUtf8, Hash;
    var digits, name := Decimal(index), AtomName(index);
    DecimalRoundTrip(index);
    assert Pow10(10) == 10_000_000_000 by {
      assert Pow10(5) == 100_000 && Pow10(10) == 100_000 * Pow10(5);
    }
    DecimalLength(index, 9);
    assert name[..5] == ATOM_PREFIX && name[5..] == digits;
    forall i | 0 <= i < |name| ensures name[i] <= 0x7F {
      assert i >= 5 ==> IsDigit(digits[i - 5]);
    }
    AsciiIsUtf8(name);
    assert IsDigit(digits[0]);
  }

  lemma AtomReadBack(before: seq<Byte>, index: U32)
    ensures TermAt(before + AtomBytes(index), |before|) == Item(FromAtom(index), |before| + |AtomBytes(index)|)
  {
    hide AtomIndex, AtomName, ValidUtf8, FromAtom;
    var name := AtomName(index);
    AtomNameIndex(index);
    assert BigEndian(|name|, 2) == [0, |name|] by {
      assert BigEndian(|name| / 0x100, 1) == [0];
    }
    hide BigEndian, BigAt, IntegerAt, SmallItem;
    var bytes, p := before + AtomBytes(index), |before| + 1;
    assert bytes[p - 1] == TAG_ATOM && bytes[p] == 0 && bytes[p + 1] == |name| && |bytes| == p + 2 + |name|;
    assert bytes[p + 2..p + 2 + |name|] == name;
  }

  /** The words `Term::from_small` and `Term::from_atom` can make. */
  predicate Canonical(w: Word) {
    match Tag(w)
    case SmallInteger => SMALL_MIN <= ToSmall(w) <= SMALL_MAX
    case Atom => Addr(w) < TWO_32
    case _ => false
  }

  /**
   `decode(encode(t)) = t`, with and without the version byte and with every byte consumed, exactly
   for the immediates the term constructors make: every 60-bit small integer and every 32-bit atom index.
   */
  lemma RoundTripIff(w: Word, version: bool)
    requires IsImmediate(w)
    ensures var bytes := (if version then [VERSION_MAGIC] else []) + Encoded(w);
            Decoded(bytes) == Item(w, |bytes|) <==> Canonical(w)
  {
    hide TermAt, IntegerBytes, AtomBytes, ToAtom, SmallItem, FromAtom, Canonical;
    var before := if version then [VERSION_MAGIC] else [];
    var bytes := before + Encoded(w);
    if Tag(w) == SmallInteger {
      SmallIntegerWord(w, |bytes|);
      IntegerReadBack(before, ToSmall(w));
      FirstByteIsTag(ToSmall(w));
    } else {
      AtomWord(w);
      AtomReadBack(before, ToAtom(w));
      AtomFirstByte(ToAtom(w));
    }
  }

  lemma SmallIntegerWord(w: Word, next: nat)
    requires Tag(w) == SmallInteger
    ensures -TWO_63 < ToSmall(w) < TWO_63
    ensures SmallItem(ToSmall(w), next) == Item(w, next) <==> Canonical(w)
  {
    hide FromSmall;
    SmallRoundTrip(0, w);
  }

  lemma AtomWord(w: Word)
    requires Tag(w) == Atom
    ensures FromAtom(ToAtom(w)) == w <==> Canonical(w)
  {
    assert w == Addr(w) * 8 + 1;
  }

  lemma AtomFirstByte(index: U32)
    ensures AtomBytes(index) != [] && AtomBytes(index)[0] != VERSION_MAGIC
  {
  }

  lemma SmallItemCanonical(x: int, next: nat)
    ensures SmallItem(x, next).Item? ==> Canonical(SmallItem(x, next).term)
  {
    if SMALL_MIN <= x <= SMALL_MAX {
      SmallRoundTrip(x, FromSmall(x));
    }
  }

  lemma AtomCanonical(index: U32)
    ensures Canonical(FromAtom(index))
  {
  }

  lemma AtomAtCanonical(bytes: seq<Byte>, offset: nat)
    ensures AtomAt(bytes, offset).Item? ==> Canonical(AtomAt(bytes, offset).term)
  {
    hide AtomIndex, ValidUtf8, NameLength, FromAtom, Canonical;
    forall index: U32 ensures Canonical(FromAtom(index)) {
      AtomCanonical(index);
    }
  }

  /** Whatever decodes is a word the term constructors make. */
  lemma DecodedIsCanonical(bytes: seq<Byte>)
    requires Decoded(bytes).Item?
    ensures Canonical(Decoded(bytes).term)
  {
    hide SmallItem, AtomAt, FromBigEndian, Accumulated, Pow256;
    var offset := if bytes[0] == VERSION_MAGIC then 1 else 0;
    var r, next := TermAt(bytes, offset), offset + 1;
    AtomAtCanonical(bytes, next);
    forall x, n: nat | r == SmallItem(x, n) ensures Canonical(r.term) {
      SmallItemCanonical(x, n);
    }
  }

  /** Every byte string that decodes to an immediate gives one that encodes and decodes to itself. */
  lemma DecodedReencodes(bytes: seq<Byte>)
    requires Decoded(bytes).Item?
    ensures var w := Decoded(bytes).term;
            Canonical(w) && Decoded(Encoded(w)) == Item(w, |Encoded(w)|)
  {
    hide Encoded, Decoded;
    var w := Decoded(bytes).term;
    DecodedIsCanonical(bytes);
    RoundTripIff(w, false);
    assert [] + Encoded(w) == Encoded(w);
  }

  lemma FirstByteIsTag(value: int)
    ensures IntegerBytes(value) != [] && IntegerBytes(value)[0] != VERSION_MAGIC
  {
  }

  // ---- Other inputs ----------------------------------------------------------------------------

  /** Digits beyond 64 bits are lost: what is accumulated is the base-256 number modulo 2^64. */
  lemma {:induction false} AccumulatedIs(s: seq<Byte>)
    ensures Accumulated(s) == FromBigEndian(s) % TWO_64
    decreases |s|
  {
    if s != [] {
      var n, b := FromBigEndian(s[..|s| - 1]), s[|s| - 1];
      AccumulatedIs(s[..|s| - 1]);
      ModStep(n, 0x100, b);
    }
  }

  lemma ModStep(n: nat, k: nat, b: nat)
    ensures ((n % TWO_64) * k + b) % TWO_64 == (n * k + b) % TWO_64
  {
    var q, r := n / TWO_64, n % TWO_64;
    assert n * k + b == (q * k) * TWO_64 + (r * k + b);
    ModShift(q * k, r * k + b);
  }

  lemma ModShift(q: nat, r: nat)
    ensures (q * TWO_64 + r) % TWO_64 == r % TWO_64
  {
  }

  /** The polynomial in 31 of a name, first byte first. */
  function Polynomial(s: seq<Byte>): nat {
    if s == [] then 0 else Polynomial(s[..|s| - 1]) * 31 + s[|s| - 1]
  }

  /** The fallback index of a name is its polynomial in 31, modulo 2^64 and then modulo 0xFFFF. */
  lemma {:induction false} HashIs(s: seq<Byte>)
    ensures Hash(s) == Polynomial(s) % TWO_64
    decreases |s|
  {
    if s != [] {
      HashIs(s[..|s| - 1]);
      ModStep(Polynomial(s[..|s| - 1]), 31, s[|s| - 1]);
    }
  }

  lemma OtherNameIndex(name: seq<Byte>)
    requires |name| < 5 || name[..5] != [0x61, 0x74, 0x6F, 0x6D, 0x5F]
    ensures AtomIndex(name) == Polynomial(name) % TWO_64 % 0xFFFF
  {
    HashIs(name);
  }

  /** An optional plus sign, at least one digit, nothing else, and a value below 2^32. */
  lemma ParsedU32Is(s: seq<Byte>)
    ensures s != [] && AllDigits(s) ==>
              ParsedU32(s) == ParsedU32([0x2B] + s) ==
                if DigitsValue(s) < 0x1_0000_0000 then Some(DigitsValue(s)) else None
    ensures s == [] || !AllDigits(s) ==> ParsedU32([0x2B] + s) == None
    ensures s == [] || (!AllDigits(s) && s[0] != 0x2B) ==> ParsedU32(s) == None
  {
    assert ([0x2B] + s)[1..] == s;
    assert AllDigits(s) && s != [] ==> IsDigit(s[0]);
  }

  /** Any sign byte but zero makes a big integer negative; up to seven digits its size is the base-256 number. */
  lemma BigSign(bytes: seq<Byte>, p: nat)
    requires p + 2 <= |bytes| && bytes[p] <= 7 && p + 2 + bytes[p] <= |bytes|
    ensures var v: int := FromBigEndian(bytes[p + 2..p + 2 + bytes[p]]);
            BigAt(bytes, p) == SmallItem(if bytes[p + 1] == 0 then v else -v, p + 2 + bytes[p])
  {
    hide Accumulated, FromBigEndian, SmallItem;
    AccumulatedShort(bytes[p + 2..p + 2 + bytes[p]]);
  }

  lemma AccumulatedShort(digits: seq<Byte>)
    requires |digits| <= 7
    ensures Accumulated(digits) == FromBigEndian(digits) < TWO_63
  {
    hide Accumulated, FromBigEndian;
    AccumulatedIs(digits);
    SevenDigits(digits);
  }

  lemma SevenDigits(digits: seq<Byte>)
    requires |digits| <= 7
    ensures FromBigEndian(digits) < 0x100_0000_0000_0000
  {
    Pow256Grows(|digits|, 7);
    assert Pow256(7) == 0x100 * Pow256(6) && Pow256(6) == 0x100 * Pow256(5) && Pow256(5) == 0x100 * Pow256(4) by {
    }
    Widths();
  }

  lemma {:induction false} Pow256Grows(a: nat, b: nat)
    requires a <= b
    ensures Pow256(a) <= Pow256(b)
    decreases b
  {
    if a < b {
      Pow256Grows(a, b - 1);
    }
  }

  /** The empty list is the atom `nil`, and the tags for terms this model leaves out are named. */
  lemma OneByteTerms(tag: Byte)
    requires tag != 131
    ensures Decoded([106]) == Item(FromAtom(2), 1)
    ensures Decoded([tag]) == if tag == 106 then Item(FromAtom(2), 1)
                              else if tag in {115, 97, 98, 110, 111} then Failed(UnexpectedEnd)
                              else Failed(OtherTag(tag))
  {
  }

  /** Every encoding cut short anywhere decodes to the end-of-input error. */
  lemma PrefixFails(w: Word, version: bool, k: nat)
    requires IsImmediate(w)
    requires k < |(if version then [VERSION_MAGIC] else []) + Encoded(w)|
    ensures Decoded(((if version then [VERSION_MAGIC] else []) + Encoded(w))[..k]) == Failed(UnexpectedEnd)
  {
    hide IntegerBytes, AtomBytes, ToAtom, ToSmall, TermAt;
    var before := if version then [VERSION_MAGIC] else [];
    var bytes := before + Encoded(w);
    if Tag(w) == SmallInteger {
      FirstByteIsTag(ToSmall(w));
      SmallIntegerWord(w, 0);
    } else {
      AtomFirstByte(ToAtom(w));
    }
    if k <= |before| {
      NothingAt(bytes[..k], |before|);
    } else {
      var j := k - |before|;
      assert bytes[..k] == before + Encoded(w)[..j];
      if Tag(w) == SmallInteger {
        IntegerPrefix(before, ToSmall(w), j);
      } else {
        AtomPrefix(before, ToAtom(w), j);
      }
    }
  }

  lemma NothingAt(bytes: seq<Byte>, offset: nat)
    requires offset >= |bytes|
    ensures TermAt(bytes, offset) == Failed(UnexpectedEnd)
  {
  }

  lemma IntegerPrefix(before: seq<Byte>, value: int, j: nat)
    requires -TWO_63 < value < TWO_63 && 0 < j < |IntegerBytes(value)|
    ensures TermAt(before + IntegerBytes(value)[..j], |before|) == Failed(UnexpectedEnd)
  {
    hide BigEndian, Digits256, Reversed, Accumulated, FromBigEndian, SmallItem;
    Widths();
    var bytes := before + IntegerBytes(value)[..j];
    assert bytes[|before|] == IntegerBytes(value)[0];
    if !(I32_MIN <= value <= I32_MAX) {
      var digits := Magnitude(value);
      DigitsReadBack(Abs(value), 8);
      ReversedLength(digits);
      assert j > 1 ==> bytes[|before| + 1] == |digits|;
    }
  }

  lemma AtomCut(bytes: seq<Byte>, offset: nat, n: Byte)
    requires offset <= |bytes| < offset + 2 + n
    requires offset + 2 <= |bytes| ==> bytes[offset] == 0 && bytes[offset + 1] == n
    ensures AtomAt(bytes, offset) == Failed(UnexpectedEnd)
  {
    hide AtomIndex, ValidUtf8, FromAtom;
  }

  lemma AtomPrefix(before: seq<Byte>, index: U32, j: nat)
    requires 0 < j < |AtomBytes(index)|
    ensures TermAt(before + AtomBytes(index)[..j], |before|) == Failed(UnexpectedEnd)
  {
    hide AtomAt, AtomName, ValidUtf8, AtomIndex, BigAt, IntegerAt, SmallItem;
    var name := AtomName(index);
    AtomNameIndex(index);
    assert BigEndian(|name|, 2) == [0, |name|] by {
      assert BigEndian(|name| / 0x100, 1) == [0];
    }
    hide BigEndian;
    var whole := AtomBytes(index);
    assert whole == [TAG_ATOM, 0, |name|] + name;
    var bytes, p := before + whole[..j], |before| + 1;
    assert bytes[p - 1] == TAG_ATOM && |bytes| == |before| + j;
    assert j > 2 ==> bytes[p] == whole[1] && bytes[p + 1] == whole[2];
    AtomCut(bytes, p, |name|);
  }

  /** The layout on the wire, form by form: most significant byte first. */
  lemma WireExamples()
    ensures IntegerBytes(7) == [97, 7]
    ensures IntegerBytes(-2) == [98, 0xFF, 0xFF, 0xFF, 0xFE]
    ensures IntegerBytes(0x1_0203) == [98, 0, 1, 2, 3]
    ensures IntegerBytes(-0x1_0203_0405) == [110, 5, 1, 1, 2, 3, 4, 5]
    ensures AtomBytes(42) == [115, 0, 7, 0x61, 0x74, 0x6F, 0x6D, 0x5F, 0x34, 0x32]
  {
    hide BigEndian, Decimal, Digits256, Reversed;
    WireInteger(-2 % TWO_32, 0xFF, 0xFF, 0xFF, 0xFE);
    WireInteger(0x1_0203, 0, 1, 2, 3);
    WireBig();
    WireAtom();
  }

  lemma WireBig()
    ensures Reversed(Digits256(0x1_0203_0405)) == [1, 2, 3, 4, 5] && |Digits256(0x1_0203_0405)| == 5
  {
    ReversedLength(Digits256(0x1_0203_0405));
    DigitsOne(0x1_0203_0405, 5, 0x102_0304);
    DigitsOne(0x102_0304, 4, 0x1_0203);
    DigitsOne(0x1_0203, 3, 0x102);
    DigitsOne(0x102, 2, 1);
    DigitsOne(1, 1, 0);
    assert Digits256(0) == [] && Reversed([]) == [];
    hide Digits256, Reversed;
    assert [] + [1] + [2] + [3] + [4] + [5] == [1, 2, 3, 4, 5];
  }

  lemma DigitsOne(v: nat, low: Byte, rest: nat)
    requires v > 0 && v == rest * 0x100 + low
    ensures Reversed(Digits256(v)) == Reversed(Digits256(rest)) + [low]
  {
    assert v / 0x100 == rest && v % 0x100 == low;
    assert Digits256(v) == [low] + Digits256(rest);
    assert ([low] + Digits256(rest))[1..] == Digits256(rest);
  }

  lemma WireAtom()
    ensures AtomName(42) == [0x61, 0x74, 0x6F, 0x6D, 0x5F, 0x34, 0x32]
    ensures BigEndian(7, 2) == [0, 7]
  {
    assert Decimal(42) == Decimal(4) + [0x32];
    assert BigEndian(7, 2) == BigEndian(0, 1) + [7];
  }

  lemma WireInteger(x: nat, a: Byte, b: Byte, c: Byte, d: Byte)
    requires x == ((a * 0x100 + b) * 0x100 + c) * 0x100 + d
    ensures BigEndian(x, 4) == [a, b, c, d]
  {
    assert BigEndian(a, 1) == [a];
    assert BigEndian(a * 0x100 + b, 2) == [a, b];
    assert BigEndian((a * 0x100 + b) * 0x100 + c, 3) == [a, b, c];
  }
}
