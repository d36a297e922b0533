/** Distribution control messages and their byte encoding. */
module ControlMessages {
  import opened Wrappers
  import opened Words
  import opened Bytes

  type U64 = n: int | 0 <= n < 0x1_0000_0000_0000_0000

  /** A Rust `String`: well-formed UTF-8 bytes. */
  type Utf8 = s: seq<Byte> | ValidUtf8(s) witness []

  datatype MessageType =
    | Link | Send | Exit | Unlink | Monitor | Demonitor | MonitorExit
    | SendTCP | SendXML | SendTerm | ExitTck | Exit2 | ExitCruise

  datatype RemotePid = RemotePid(node: Utf8, id: U32, serial: U32, creation: U32)

  datatype RemoteRef = RemoteRef(node: Utf8, id: U64, creation: U32)

  datatype ControlMessage = ControlMessage(
    msgType: MessageType,
    from: Option<RemotePid>,
    to: Option<RemotePid>,
    refId: Option<RemoteRef>,
    reason: Option<U32>)

  function TypeCode(t: MessageType): Byte {
    match t
    case Link => 1
    case Send => 2
    case Exit => 3
    case Unlink => 4
    case Monitor => 5
    case Demonitor => 6
    case MonitorExit => 7
    case SendTCP => 8
    case SendXML => 9
    case SendTerm => 10
    case ExitTck => 11
    case Exit2 => 12
    case ExitCruise => 13
  }

  /** The types `decode` knows. */
  function TypeOf(b: Byte): Option<MessageType> {
    match b
    case 1 => Some(Link)
    case 3 => Some(Exit)
    case 4 => Some(Unlink)
    case 5 => Some(Monitor)
    case 6 => Some(Demonitor)
    case 7 => Some(MonitorExit)
    case _ => None
  }

  // ---- Encoding --------------------------------------------------------------------------------

  /** The length is cut to one byte. */
  function NameBytes(name: Utf8): seq<Byte> {
    [|name| % 0x100] + name
  }

  function PidBytes(p: Option<RemotePid>): seq<Byte> {
    match p
    case None => [0]
    case Some(p) =>
      [1] + LittleEndian(p.id, 4) + LittleEndian(p.serial, 4) + LittleEndian(p.creation, 4) + NameBytes(p.node)
  }

  function RefBytes(r: Option<RemoteRef>): seq<Byte> {
    match r
    case None => [0]
    case Some(r) => [1] + LittleEndian(r.id, 8) + LittleEndian(r.creation, 4) + NameBytes(r.node)
  }

  function ReasonBytes(r: Option<U32>): seq<Byte> {
    match r
    case None => [0]
    case Some(reason) => [1] + LittleEndian(reason, 4)
  }

  function Encoded(m: ControlMessage): seq<Byte> {
    [TypeCode(m.msgType)] + PidBytes(m.from) + PidBytes(m.to) + RefBytes(m.refId) + ReasonBytes(m.reason)
  }

  method Encode(m: ControlMessage) returns (data: seq<Byte>)
    ensures data == Encoded(m)
  {
    hide LittleEndian;
    data := [TypeCode(m.msgType)];
    data := AppendPid(data, m.from);
    data := AppendPid(data, m.to);
    data := AppendRef(data, m.refId);
    match m.reason {
      case Some(reason) =>
        data := data + [1];
        data := data + LittleEndian(reason, 4);
      case None =>
        data := data + [0];
    }
    assert data == Encoded(m);
  }

  method AppendPid(buffer: seq<Byte>, p: Option<RemotePid>) returns (data: seq<Byte>)
    ensures data == buffer + PidBytes(p)
  {
    hide LittleEndian;
    data := buffer;
    match p {
      case Some(pid) =>
        data := data + [1];
        data := data + LittleEndian(pid.id, 4);
        data := data + LittleEndian(pid.serial, 4);
        data := data + LittleEndian(pid.creation, 4);
        data := data + [|pid.node| % 0x100];
        data := data + pid.node;
      case None =>
        data := data + [0];
    }
    assert data == buffer + PidBytes(p);
  }

  method AppendRef(buffer: seq<Byte>, r: Option<RemoteRef>) returns (data: seq<Byte>)
    ensures data == buffer + RefBytes(r)
  {
    hide LittleEndian;
    data := buffer;
    match r {
      case Some(ref) =>
        data := data + [1];
        data := data + LittleEndian(ref.id, 8);
        data := data + LittleEndian(ref.creation, 4);
        data := data + [|ref.node| % 0x100];
        data := data + ref.node;
      case None =>
        data := data + [0];
    }
    assert data == buffer + RefBytes(r);
  }

  // ---- Decoding --------------------------------------------------------------------------------

  /** A decoded item and the position after it. */
  datatype Read<+T> = Malformed | Item(value: T, next: nat)

  function UnsignedAt(data: seq<Byte>, pos: nat, n: nat): (r: Read<nat>)
    ensures r.Item? ==> r.next == pos + n <= |data| && r.value < Pow256(n)
  {
    if pos + n > |data| then Malformed else Item(FromLittleEndian(data[pos..pos + n]), pos + n)
  }

  /** A length byte, that many bytes, which must be UTF-8. */
  function NameAt(data: seq<Byte>, pos: nat): (r: Read<Utf8>)
    ensures r.Item? ==> pos < r.next <= |data| && |r.value| < 0x100
  {
    if pos >= |data| then Malformed
    else
      var end := pos + 1 + data[pos];
      if end > |data| || !ValidUtf8(data[pos + 1..end]) then Malformed
      else Item(data[pos + 1..end], end)
  }

  function PidAt(data: seq<Byte>, pos: nat): (r: Read<Option<RemotePid>>)
    ensures r.Item? ==> pos < r.next <= |data|
    ensures r.Item? && r.value.Some? ==> |r.value.value.node| < 0x100
  {
    if pos >= |data| then Malformed
    else if data[pos] != 1 then Item(None, pos + 1)
    else
      Widths();
      match UnsignedAt(data, pos + 1, 4)
      case Malformed => Malformed
      case Item(id, p1) =>
        match UnsignedAt(data, p1, 4)
        case Malformed => Malformed
        case Item(serial, p2) =>
          match UnsignedAt(data, p2, 4)
          case Malformed => Malformed
          case Item(creation, p3) =>
            match NameAt(data, p3)
            case Malformed => Malformed
            case Item(node, p4) => Item(Some(RemotePid(node, id, serial, creation)), p4)
  }

  function RefAt(data: seq<Byte>, pos: nat): (r: Read<Option<RemoteRef>>)
    ensures r.Item? ==> pos < r.next <= |data|
    ensures r.Item? && r.value.Some? ==> |r.value.value.node| < 0x100
  {
    if pos >= |data| then Malformed
    else if data[pos] != 1 then Item(None, pos + 1)
    else
      Widths();
      match UnsignedAt(data, pos + 1, 8)
      case Malformed => Malformed
      case Item(id, p1) =>
        match UnsignedAt(data, p1, 4)
        case Malformed => Malformed
        case Item(creation, p2) =>
          match NameAt(data, p2)
          case Malformed => Malformed
          case Item(node, p3) => Item(Some(RemoteRef(node, id, creation)), p3)
  }

  /** A missing reason byte counts as an absent reason, and anything after the reason is ignored. */
  function ReasonAt(data: seq<Byte>, pos: nat): Read<Option<U32>> {
    if pos >= |data| || data[pos] != 1 then Item(None, pos)
    else
      Widths();
      match UnsignedAt(data, pos + 1, 4)
      case Malformed => Malformed
      case Item(reason, next) => Item(Some(reason), next)
  }

  function Decoded(data: seq<Byte>): Option<ControlMessage> {
    if data == [] || TypeOf(data[0]).None? then None
    else
      match PidAt(data, 1)
      case Malformed => None
      case Item(from, p1) =>
        match PidAt(data, p1)
        case Malformed => None
        case Item(to, p2) =>
          match RefAt(data, p2)
          case Malformed => None
          case Item(refId, p3) =>
            match ReasonAt(data, p3)
            case Malformed => None
            case Item(reason, _) => Some(ControlMessage(TypeOf(data[0]).value, from, to, refId, reason))
  }

  method DecodePid(data: seq<Byte>, start: nat) returns (r: Read<Option<RemotePid>>)
    ensures r == PidAt(data, start)
  {
    hide FromLittleEndian, ValidUtf8, Pow256;
    Widths();
    var pos := start;
    if pos >= |data| {
      return Malformed;
    }
    if data[pos] != 1 {
      return Item(None, pos + 1);
    }
    pos := pos + 1;
    if pos + 4 > |data| {
      return Malformed;
    }
    FourBytes(data, pos);
    var id := FromLittleEndian([data[pos], data[pos + 1], data[pos + 2], data[pos + 3]]);
    pos := pos + 4;
    if pos + 4 > |data| {
      return Malformed;
    }
    FourBytes(data, pos);
    var serial := FromLittleEndian([data[pos], data[pos + 1], data[pos + 2], data[pos + 3]]);
    pos := pos + 4;
    if pos + 4 > |data| {
      return Malformed;
    }
    FourBytes(data, pos);
    var creation := FromLittleEndian([data[pos], data[pos + 1], data[pos + 2], data[pos + 3]]);
    pos := pos + 4;
    if pos >= |data| {
      return Malformed;
    }
    var nodeLen := data[pos];
    pos := pos + 1;
    if pos + nodeLen > |data| || !ValidUtf8(data[pos..pos + nodeLen]) {
      return Malformed;
    }
    var node: Utf8 := data[pos..pos + nodeLen];
    pos := pos + nodeLen;
    r := Item(Some(RemotePid(node, id, serial, creation)), pos);
  }

  lemma FourBytes(data: seq<Byte>, pos: nat)
    requires pos + 4 <= |data|
    ensures [data[pos], data[pos + 1], data[pos + 2], data[pos + 3]] == data[pos..pos + 4]
    ensures FromLittleEndian(data[pos..pos + 4]) < TWO_32
  {
    Widths();
  }

  method DecodeRef(data: seq<Byte>, start: nat) returns (r: Read<Option<RemoteRef>>)
    ensures r == RefAt(data, start)
  {
    hide FromLittleEndian, ValidUtf8, Pow256;
    Widths();
    var pos := start;
    if pos >= |data| {
      return Malformed;
    }
    if data[pos] != 1 {
      return Item(None, pos + 1);
    }
    pos := pos + 1;
    if pos + 8 > |data| {
      return Malformed;
    }
    var id := FromLittleEndian(data[pos..pos + 8]);
    pos := pos + 8;
    if pos + 4 > |data| {
      return Malformed;
    }
    FourBytes(data, pos);
    var creation := FromLittleEndian([data[pos], data[pos + 1], data[pos + 2], data[pos + 3]]);
    pos := pos + 4;
    if pos >= |data| {
      return Malformed;
    }
    var nodeLen := data[pos];
    pos := pos + 1;
    if pos + nodeLen > |data| || !ValidUtf8(data[pos..pos + nodeLen]) {
      return Malformed;
    }
    var node: Utf8 := data[pos..pos + nodeLen];
    pos := pos + nodeLen;
    r := Item(Some(RemoteRef(node, id, creation)), pos);
  }

  /** Never indexes outside `data`, whatever the bytes are. */
  method Decode(data: seq<Byte>) returns (m: Option<ControlMessage>)
    ensures m == Decoded(data)
  {
    hide PidAt, RefAt, FromLittleEndian;
    if |data| == 0 {
      return None;
    }
    var msgType := TypeOf(data[0]);
    if msgType.None? {
      return None;
    }
    var from := DecodePid(data, 1);
    if from.Malformed? {
      return None;
    }
    var to := DecodePid(data, from.next);
    if to.Malformed? {
      return None;
    }
    var refId := DecodeRef(data, to.next);
    if refId.Malformed? {
      return None;
    }
    var pos := refId.next;
    var reason: Option<U32> := None;
    if pos < |data| {
      if data[pos] == 1 {
        pos := pos + 1;
        if pos + 4 > |data| {
          return None;
        }
        FourBytes(data, pos);
        reason := Some(FromLittleEndian([data[pos], data[pos + 1], data[pos + 2], data[pos + 3]]));
      }
    }
    m := Some(ControlMessage(msgType.value, from.value, to.value, refId.value, reason));
  }

  // ---- Round trip ------------------------------------------------------------------------------

  lemma UnsignedReadBack(before: seq<Byte>, x: nat, n: nat, after: seq<Byte>)
    requires x < Pow256(n)
    ensures UnsignedAt(before + LittleEndian(x, n) + after, |before|, n) == Item(x, |before| + n)
  {
    LittleEndianRoundTrip(x, n);
    var all := before + LittleEndian(x, n) + after;
    assert all[|before|..|before| + n] == LittleEndian(x, n);
  }

  /** A name comes back exactly when its length fits the length byte. */
  lemma NameReadBackIff(before: seq<Byte>, name: Utf8, after: seq<Byte>)
    ensures var r := NameAt(before + NameBytes(name) + after, |before|);
            && (|name| < 0x100 ==> r == Item(name, |before| + |NameBytes(name)|))
            && (|name| >= 0x100 ==> r.Malformed? || r.value != name)
  {
    var all := before + NameBytes(name) + after;
    if |name| < 0x100 {
      assert all[|before| + 1..|before| + 1 + |name|] == name;
    }
  }

  predicate PidFits(p: Option<RemotePid>) {
    p.Some? ==> |p.value.node| < 0x100
  }

  predicate RefFits(r: Option<RemoteRef>) {
    r.Some? ==> |r.value.node| < 0x100
  }

  lemma PidReadBackIff(before: seq<Byte>, p: Option<RemotePid>, after: seq<Byte>)
    ensures var r := PidAt(before + PidBytes(p) + after, |before|);
            && (PidFits(p) ==> r == Item(p, |before| + |PidBytes(p)|))
            && (!PidFits(p) ==> r.Malformed? || r.value != p)
  {
    hide LittleEndian, NameBytes, NameAt, UnsignedAt, Pow256;
    match p {
      case None =>
      case Some(pid) =>
        Widths();
        var a, b, c := LittleEndian(pid.id, 4), LittleEndian(pid.serial, 4), LittleEndian(pid.creation, 4);
        var d := NameBytes(pid.node);
        var all := before + PidBytes(p) + after;
        assert all == (before + [1]) + a + (b + c + d + after);
        UnsignedReadBack(before + [1], pid.id, 4, b + c + d + after);
        assert all == (before + [1] + a) + b + (c + d + after);
        UnsignedReadBack(before + [1] + a, pid.serial, 4, c + d + after);
        assert all == (before + [1] + a + b) + c + (d + after);
        UnsignedReadBack(before + [1] + a + b, pid.creation, 4, d + after);
        assert all == (before + [1] + a + b + c) + d + after;
        NameReadBackIff(before + [1] + a + b + c, pid.node, after);
    }
  }

  lemma RefReadBackIff(before: seq<Byte>, r: Option<RemoteRef>, after: seq<Byte>)
    ensures var q := RefAt(before + RefBytes(r) + after, |before|);
            && (RefFits(r) ==> q == Item(r, |before| + |RefBytes(r)|))
            && (!RefFits(r) ==> q.Malformed? || q.value != r)
  {
    hide LittleEndian, NameBytes, NameAt, UnsignedAt, Pow256;
    match r {
      case None =>
      case Some(ref) =>
        Widths();
        var a, b, d := LittleEndian(ref.id, 8), LittleEndian(ref.creation, 4), NameBytes(ref.node);
        var all := before + RefBytes(r) + after;
        assert all == (before + [1]) + a + (b + d + after);
        UnsignedReadBack(before + [1], ref.id, 8, b + d + after);
        assert all == (before + [1] + a) + b + (d + after);
        UnsignedReadBack(before + [1] + a, ref.creation, 4, d + after);
        assert all == (before + [1] + a + b) + d + after;
        NameReadBackIff(before + [1] + a + b, ref.node, after);
    }
  }

  lemma ReasonReadBack(before: seq<Byte>, r: Option<U32>)
    ensures var q := ReasonAt(before + ReasonBytes(r), |before|);
            q.Item? && q.value == r
  {
    hide LittleEndian, UnsignedAt, Pow256;
    match r {
      case None =>
      case Some(reason) =>
        Widths();
        assert before + ReasonBytes(r) == (before + [1]) + LittleEndian(reason, 4) + [];
        UnsignedReadBack(before + [1], reason, 4, []);
    }
  }

  /** One of the six decodable types, with node names of at most 255 bytes. */
  predicate Carried(m: ControlMessage) {
    TypeOf(TypeCode(m.msgType)).Some? && PidFits(m.from) && PidFits(m.to) && RefFits(m.refId)
  }

  /**
   `decode(encode(m)) = Some(m)` exactly when the type is one of the six that `decode` knows and every
   node name present fits the length byte; any combination of present and absent parts is allowed.
   */
  lemma RoundTripIff(m: ControlMessage)
    ensures Decoded(Encoded(m)) == Some(m) <==> Carried(m)
  {
    hide PidAt, RefAt, ReasonAt, PidBytes, RefBytes, ReasonBytes;
    var t, a, b := [TypeCode(m.msgType)], PidBytes(m.from), PidBytes(m.to);
    var c, d := RefBytes(m.refId), ReasonBytes(m.reason);
    var all := Encoded(m);
    assert all == t + a + (b + c + d);
    PidReadBackIff(t, m.from, b + c + d);
    assert all == (t + a) + b + (c + d);
    PidReadBackIff(t + a, m.to, c + d);
    assert all == (t + a + b) + c + d;
    RefReadBackIff(t + a + b, m.refId, d);
    ReasonReadBack(t + a + b + c, m.reason);
  }

  /** Hence the encoding is injective on the messages it can carry. */
  lemma EncodeInjective(m: ControlMessage, m': ControlMessage)
    requires Carried(m) && Carried(m')
    ensures Encoded(m) == Encoded(m') <==> m == m'
  {
    RoundTripIff(m);
    RoundTripIff(m');
  }

  /** Every byte string that decodes at all gives a message that encodes and decodes to itself. */
  lemma DecodedReencodes(data: seq<Byte>)
    requires Decoded(data).Some?
    ensures Carried(Decoded(data).value) && Decoded(Encoded(Decoded(data).value)) == Decoded(data)
  {
    DecodedIsCarried(data);
    RoundTripIff(Decoded(data).value);
  }

  lemma DecodedIsCarried(data: seq<Byte>)
    requires Decoded(data).Some?
    ensures Carried(Decoded(data).value)
  {
    hide PidAt, RefAt, ReasonAt;
    assert forall t: MessageType, b: Byte :: TypeOf(b) == Some(t) ==> TypeCode(t) == b;
  }

  /** A node name of 256 letters. */
  function LongName(): (name: Utf8)
    ensures |name| == 0x100
  {
    var name := seq(0x100, _ => 0x61);
    AsciiIsUtf8(name);
    name
  }

  /** A link from a node with a name of 256 letters is not what the other side reads. */
  lemma LongNameLost(id: U32, serial: U32, creation: U32)
    ensures var m := ControlMessage(Link, Some(RemotePid(LongName(), id, serial, creation)), None, None, None);
            Decoded(Encoded(m)) != Some(m)
  {
    RoundTripIff(ControlMessage(Link, Some(RemotePid(LongName(), id, serial, creation)), None, None, None));
  }

  /** `decode` rejects what `encode` produces for the seven other types, Send among them. */
  lemma OtherTypesRejected(m: ControlMessage)
    requires TypeOf(TypeCode(m.msgType)).None?
    ensures Decoded(Encoded(m)) == None
  {
    hide PidBytes, RefBytes, ReasonBytes, PidAt, RefAt, ReasonAt;
    assert Encoded(m)[0] == TypeCode(m.msgType);
  }

  // ---- Numbers and layout on the wire --------------------------------------------------------------

  /** All types, in the order of their numbers. */
  const TYPES: seq<MessageType> := [
    Link, Send, Exit, Unlink, Monitor, Demonitor, MonitorExit,
    SendTCP, SendXML, SendTerm, ExitTck, Exit2, ExitCruise]

  /** The types are numbered from one, and those `decode` knows are 1 and 3 to 7. */
  lemma TypesNumbered(i: nat)
    requires i < |TYPES|
    ensures TypeCode(TYPES[i]) == i + 1
    ensures TypeOf(i + 1) == if i == 0 || 2 <= i <= 6 then Some(TYPES[i]) else None
  {
  }

  lemma TypesComplete(t: MessageType)
    ensures t in TYPES
  {
    assert TYPES[TypeCode(t) - 1] == t;
  }

  /** The node name "a". */
  function OneLetter(): (name: Utf8)
    ensures name == [0x61]
  {
    AsciiIsUtf8([0x61]);
    [0x61]
  }

  /** An exit message from process 0x01020304 on node "a" with a reason: least significant byte first. */
  lemma WireExample()
    ensures Encoded(ControlMessage(Exit, Some(RemotePid(OneLetter(), 0x102_0304, 5, 6)), None, None, Some(0x100))) ==
            [3, 1, 4, 3, 2, 1, 5, 0, 0, 0, 6, 0, 0, 0, 1, 0x61, 0, 0, 1, 0, 1, 0, 0]
  {
    hide PidBytes, RefBytes, ReasonBytes;
    WirePid(OneLetter());
    WireRest();
  }

  lemma WirePid(node: Utf8)
    requires node == [0x61]
    ensures PidBytes(Some(RemotePid(node, 0x102_0304, 5, 6))) == [1, 4, 3, 2, 1, 5, 0, 0, 0, 6, 0, 0, 0, 1, 0x61]
  {
    hide LittleEndian, ValidUtf8;
    WireNumber(0x102_0304, 4, 3, 2, 1);
    WireNumber(5, 5, 0, 0, 0);
    WireNumber(6, 6, 0, 0, 0);
  }

  lemma WireRest()
    ensures PidBytes(None) == [0] && RefBytes(None) == [0] && ReasonBytes(Some(0x100)) == [1, 0, 1, 0, 0]
  {
    hide LittleEndian;
    WireNumber(0x100, 0, 1, 0, 0);
  }

  lemma WireNumber(x: nat, a: Byte, b: Byte, c: Byte, d: Byte)
    requires x == a + 0x100 * (b + 0x100 * (c + 0x100 * d))
    ensures LittleEndian(x, 4) == [a, b, c, d]
  {
    hide LittleEndian;
    var x3, x2 := c + 0x100 * d, b + 0x100 * (c + 0x100 * d);
    LittleEndianFirst(x, a, x2, 4);
    LittleEndianFirst(x2, b, x3, 3);
    LittleEndianFirst(x3, c, d, 2);
    LittleEndianFirst(d, d, 0, 1);
    assert LittleEndian(0, 0) == [];
  }

  lemma LittleEndianFirst(x: nat, low: Byte, rest: nat, n: nat)
    requires x == low + 0x100 * rest && n > 0
    ensures LittleEndian(x, n) == [low] + LittleEndian(rest, n - 1)
  {
    assert x % 0x100 == low && x / 0x100 == rest;
  }

  /** A reference on the wire: identifier, creation, node. */
  lemma WireRef()
    ensures RefBytes(Some(RemoteRef(OneLetter(), 7, 9))) == [1, 7, 0, 0, 0, 0, 0, 0, 0, 9, 0, 0, 0, 1, 0x61]
  {
    WireNumber(9, 9, 0, 0, 0);
    LittleEndianFirst(7, 7, 0, 8);
    ZeroBytes(7);
  }

  lemma {:induction false} ZeroBytes(n: nat)
    ensures LittleEndian(0, n) == seq(n, _ => 0)
    decreases n
  {
    if n > 0 {
      ZeroBytes(n - 1);
    }
  }

  // ---- Any bytes -----------------------------------------------------------------------------------

  /** A name is read exactly if its bytes are there and are UTF-8. */
  lemma NameAtIff(data: seq<Byte>, pos: nat)
    ensures NameAt(data, pos).Item? <==>
              pos < |data| && pos + 1 + data[pos] <= |data| && ValidUtf8(data[pos + 1..pos + 1 + data[pos]])
    ensures NameAt(data, pos).Item? ==>
              NameAt(data, pos) == Item(data[pos + 1..pos + 1 + data[pos]], pos + 1 + data[pos])
  {
  }

  /**
   A part whose presence byte is there but not 1 is absent. A present PID is read exactly if its twelve
   number bytes are there and its name is read.
   */
  lemma PidAtIff(data: seq<Byte>, pos: nat)
    ensures pos < |data| && data[pos] != 1 ==> PidAt(data, pos) == Item(None, pos + 1)
    ensures pos >= |data| ==> PidAt(data, pos) == Malformed
    ensures pos < |data| && data[pos] == 1 ==>
              (PidAt(data, pos).Item? <==> pos + 13 <= |data| && NameAt(data, pos + 13).Item?)
    ensures pos < |data| && data[pos] == 1 && PidAt(data, pos).Item? ==>
              var name := NameAt(data, pos + 13);
              PidAt(data, pos).value.Some? && PidAt(data, pos).value.value.node == name.value
              && PidAt(data, pos).next == name.next
  {
    hide NameAt, FromLittleEndian, Pow256;
  }

  lemma RefAtIff(data: seq<Byte>, pos: nat)
    ensures pos < |data| && data[pos] != 1 ==> RefAt(data, pos) == Item(None, pos + 1)
    ensures pos >= |data| ==> RefAt(data, pos) == Malformed
    ensures pos < |data| && data[pos] == 1 ==>
              (RefAt(data, pos).Item? <==> pos + 13 <= |data| && NameAt(data, pos + 13).Item?)
    ensures pos < |data| && data[pos] == 1 && RefAt(data, pos).Item? ==>
              var name := NameAt(data, pos + 13);
              RefAt(data, pos).value.Some? && RefAt(data, pos).value.value.node == name.value
              && RefAt(data, pos).next == name.next
  {
    hide NameAt, FromLittleEndian, Pow256;
  }

  // ---- Messages cut short --------------------------------------------------------------------------

  lemma PidPrefixFails(before: seq<Byte>, p: Option<RemotePid>, k: nat)
    requires PidFits(p) && k < |PidBytes(p)|
    ensures PidAt(before + PidBytes(p)[..k], |before|) == Malformed
  {
    hide LittleEndian, FromLittleEndian, ValidUtf8, Pow256;
    var all, pos := before + PidBytes(p)[..k], |before|;
    if k > 0 {
      assert all[pos] == PidBytes(p)[0];
      assert k > 13 ==> all[pos + 13] == |p.value.node|;
    }
  }

  lemma RefPrefixFails(before: seq<Byte>, r: Option<RemoteRef>, k: nat)
    requires RefFits(r) && k < |RefBytes(r)|
    ensures RefAt(before + RefBytes(r)[..k], |before|) == Malformed
  {
    hide LittleEndian, FromLittleEndian, ValidUtf8, Pow256;
    var all, pos := before + RefBytes(r)[..k], |before|;
    if k > 0 {
      assert all[pos] == RefBytes(r)[0];
      assert k > 13 ==> all[pos + 13] == |r.value.node|;
    }
  }

  lemma ReasonPrefix(before: seq<Byte>, r: Option<U32>, k: nat)
    requires k < |ReasonBytes(r)|
    ensures var q := ReasonAt(before + ReasonBytes(r)[..k], |before|);
            if k == 0 then q.Item? && q.value == None else q == Malformed
  {
    hide LittleEndian, FromLittleEndian, Pow256;
    var all := before + ReasonBytes(r)[..k];
    assert k > 0 ==> all[|before|] == 1;
  }

  /** Sender, receiver, reference and reason. */
  type Parts = (Option<RemotePid>, Option<RemotePid>, Option<RemoteRef>, Option<U32>)

  /** What follows the type byte, read from a position. */
  function PartsAt(data: seq<Byte>, pos: nat): Option<Parts> {
    match PidAt(data, pos)
    case Malformed => None
    case Item(from, p1) =>
      match PidAt(data, p1)
      case Malformed => None
      case Item(to, p2) =>
        match RefAt(data, p2)
        case Malformed => None
        case Item(refId, p3) =>
          match ReasonAt(data, p3)
          case Malformed => None
          case Item(reason, _) => Some((from, to, refId, reason))
  }

  lemma CutInFrom(t: seq<Byte>, m: ControlMessage, k: nat)
    requires Carried(m) && k < |PidBytes(m.from)|
    ensures PartsAt(t + PidBytes(m.from)[..k], |t|) == None
  {
    hide PidAt, RefAt, ReasonAt, PidBytes;
    PidPrefixFails(t, m.from, k);
  }

  lemma CutInTo(t: seq<Byte>, m: ControlMessage, k: nat)
    requires Carried(m) && k < |PidBytes(m.to)|
    ensures PartsAt(t + PidBytes(m.from) + PidBytes(m.to)[..k], |t|) == None
  {
    hide PidAt, RefAt, ReasonAt, PidBytes;
    PidReadBackIff(t, m.from, PidBytes(m.to)[..k]);
    PidPrefixFails(t + PidBytes(m.from), m.to, k);
  }

  lemma CutInRef(t: seq<Byte>, m: ControlMessage, k: nat)
    requires Carried(m) && k < |RefBytes(m.refId)|
    ensures PartsAt(t + PidBytes(m.from) + PidBytes(m.to) + RefBytes(m.refId)[..k], |t|) == None
  {
    hide PidAt, RefAt, ReasonAt, PidBytes, RefBytes;
    var a, b, rest := PidBytes(m.from), PidBytes(m.to), RefBytes(m.refId)[..k];
    assert t + a + (b + rest) == t + a + b + rest;
    PidReadBackIff(t, m.from, b + rest);
    PidReadBackIff(t + a, m.to, rest);
    RefPrefixFails(t + a + b, m.refId, k);
  }

  lemma CutInReason(t: seq<Byte>, m: ControlMessage, k: nat)
    requires Carried(m) && k < |ReasonBytes(m.reason)|
    ensures PartsAt(t + PidBytes(m.from) + PidBytes(m.to) + RefBytes(m.refId) + ReasonBytes(m.reason)[..k], |t|) ==
            if k == 0 then Some((m.from, m.to, m.refId, None)) else None
  {
    hide PidAt, RefAt, ReasonAt, PidBytes, RefBytes, ReasonBytes;
    var a, b, c, rest := PidBytes(m.from), PidBytes(m.to), RefBytes(m.refId), ReasonBytes(m.reason)[..k];
    var all := t + a + b + c + rest;
    assert t + a + (b + c + rest) == all;
    PidReadBackIff(t, m.from, b + c + rest);
    assert (t + a) + b + (c + rest) == all;
    PidReadBackIff(t + a, m.to, c + rest);
    RefReadBackIff(t + a + b, m.refId, rest);
    ReasonPrefix(t + a + b + c, m.reason, k);
  }

  lemma DecodedByParts(data: seq<Byte>, t: MessageType)
    requires data != [] && data[0] == TypeCode(t) && TypeOf(TypeCode(t)) == Some(t)
    ensures Decoded(data) == match PartsAt(data, 1)
                             case None => None
                             case Some((from, to, refId, reason)) => Some(ControlMessage(t, from, to, refId, reason))
  {
    hide PidAt, RefAt, ReasonAt;
  }

  /**
   A message cut short is rejected, with one exception: cut right before the reason it is taken for a
   message without one.
   */
  lemma PrefixDecodes(m: ControlMessage, k: nat)
    requires Carried(m) && k < |Encoded(m)|
    ensures Decoded(Encoded(m)[..k]) ==
            if k + |ReasonBytes(m.reason)| == |Encoded(m)| then Some(m.(reason := None)) else None
  {
    hide PartsAt, Decoded, Encoded;
    ReasonNotEmpty(m.reason);
    var data := Encoded(m)[..k];
    if k == 0 {
      assert Decoded(data) == None by {
        NothingDecodes(data);
      }
      TypeByteFirst(m);
    } else {
      TypeByteFirst(m);
      DecodedByParts(data, m.msgType);
      PrefixParts(m, k);
    }
  }

  lemma NothingDecodes(data: seq<Byte>)
    requires data == []
    ensures Decoded(data) == None
  {
  }

  lemma TypeByteFirst(m: ControlMessage)
    requires Carried(m)
    ensures |Encoded(m)| > |ReasonBytes(m.reason)| && Encoded(m)[0] == TypeCode(m.msgType)
    ensures TypeOf(TypeCode(m.msgType)) == Some(m.msgType)
  {
    hide PidBytes, RefBytes, ReasonBytes;
    KnownType(m.msgType);
  }

  lemma PrefixParts(m: ControlMessage, k: nat)
    requires Carried(m) && 0 < k < |Encoded(m)|
    ensures PartsAt(Encoded(m)[..k], 1) ==
            if k + |ReasonBytes(m.reason)| == |Encoded(m)| then Some((m.from, m.to, m.refId, None)) else None
  {
    hide PidBytes, RefBytes, ReasonBytes, PartsAt;
    var t, a, b := [TypeCode(m.msgType)], PidBytes(m.from), PidBytes(m.to);
    var c, d := RefBytes(m.refId), ReasonBytes(m.reason);
    var data, all := Encoded(m)[..k], Encoded(m);
    ReasonNotEmpty(m.reason);
    assert all == t + a + b + c + d && |all| == 1 + |a| + |b| + |c| + |d|;
    hide Encoded;
    if k < 1 + |a| {
      assert data == t + a[..k - 1];
      CutInFrom(t, m, k - 1);
    } else if k < 1 + |a| + |b| {
      assert data == t + a + b[..k - 1 - |a|];
      CutInTo(t, m, k - 1 - |a|);
    } else if k < 1 + |a| + |b| + |c| {
      assert data == t + a + b + c[..k - 1 - |a| - |b|];
      CutInRef(t, m, k - 1 - |a| - |b|);
    } else {
      assert data == t + a + b + c + d[..k - 1 - |a| - |b| - |c|];
      CutInReason(t, m, k - 1 - |a| - |b| - |c|);
    }
  }

  lemma KnownType(t: MessageType)
    ensures TypeOf(TypeCode(t)).Some? ==> TypeOf(TypeCode(t)) == Some(t)
  {
  }

  lemma ReasonNotEmpty(r: Option<U32>)
    ensures |ReasonBytes(r)| > 0
  {
  }
}
