/** The padded IFF container of BEAM files. */
module Iff {
  import opened Wrappers
  import opened Words
  import opened Bytes

  /** A chunk: a four-byte kind and its data. */
  datatype Chunk = Chunk(kind: seq<Byte>, data: seq<Byte>)

  predicate KindOk(c: Chunk) {
    |c.kind| == 4
  }

  datatype IoError = UnexpectedEof | InvalidData

  const BEAM_MAGIC: seq<Byte> := [0x42, 0x45, 0x41, 0x4D]

  // ---- Writing ---------------------------------------------------------------------------------

  function Padding(n: nat): seq<Byte> {
    if n % 2 != 0 then [0] else []
  }

  function ChunkBytes(c: Chunk): seq<Byte> {
    c.kind + BigEndian(|c.data| % TWO_32, 4) + c.data + Padding(|c.data|)
  }

  function AllChunkBytes(chunks: seq<Chunk>): seq<Byte> {
    if chunks == [] then [] else ChunkBytes(chunks[0]) + AllChunkBytes(chunks[1..])
  }

  function FileBytes(chunks: seq<Chunk>): seq<Byte> {
    BEAM_MAGIC + AllChunkBytes(chunks)
  }

  /** A growing byte buffer. */
  class Writer {
    var buffer: seq<Byte>

    constructor ()
      ensures buffer == []
    {
      buffer := [];
    }

    method WriteAll(bytes: seq<Byte>)
      modifies this
      ensures buffer == old(buffer) + bytes
    {
      buffer := buffer + bytes;
    }

    /** Kind, 32-bit big-endian length, data, and a zero byte if the length is odd. */
    method WriteChunk(c: Chunk)
      modifies this
      ensures buffer == old(buffer) + ChunkBytes(c)
    {
      WriteAll(c.kind);
      var len := |c.data| % TWO_32;
      WriteAll(BigEndian(len, 4));
      WriteAll(c.data);
      if |c.data| % 2 != 0 {
        WriteAll([0]);
      }
      assert buffer == old(buffer) + ChunkBytes(c);
    }
  }

  method ToBytes(chunks: seq<Chunk>) returns (bytes: seq<Byte>)
    ensures bytes == FileBytes(chunks)
  {
    hide ChunkBytes;
    var w := new Writer();
    w.WriteAll(BEAM_MAGIC);
    for i := 0 to |chunks|
      invariant w.buffer + AllChunkBytes(chunks[i..]) == FileBytes(chunks)
    {
      ghost var before := w.buffer;
      w.WriteChunk(chunks[i]);
      ghost var rest := AllChunkBytes(chunks[i + 1..]);
      assert before + (ChunkBytes(chunks[i]) + rest) == w.buffer + rest;
    }
    assert w.buffer + [] == w.buffer;
    bytes := w.buffer;
  }

  // ---- Reading ---------------------------------------------------------------------------------

  /** The chunk at `pos` and the position after its padding. */
  function ChunkAt(data: seq<Byte>, pos: nat): (r: Option<(Chunk, nat)>)
    requires pos <= |data|
    ensures r.Some? ==> pos + 8 <= r.value.1 <= |data| && |r.value.0.kind| == 4 && |r.value.0.data| < TWO_32
  {
    if pos + 8 > |data| then None
    else
      Widths();
      var len := FromBigEndian(data[pos + 4..pos + 8]);
      var padded := (len + 1) / 2 * 2;
      if pos + 8 + padded > |data| then None
      else Some((Chunk(data[pos..pos + 4], data[pos + 8..pos + 8 + len]), pos + 8 + padded))
  }

  function ChunksFrom(data: seq<Byte>, pos: nat): Option<seq<Chunk>>
    requires pos <= |data|
    decreases |data| - pos
  {
    if pos == |data| then Some([])
    else
      match ChunkAt(data, pos)
      case None => None
      case Some((c, next)) =>
        match ChunksFrom(data, next)
        case None => None
        case Some(rest) => Some([c] + rest)
  }

  function Parsed(data: seq<Byte>): Result<seq<Chunk>, IoError> {
    if |data| < 4 then Err(UnexpectedEof)
    else if data[..4] != BEAM_MAGIC then Err(InvalidData)
    else
      match ChunksFrom(data, 4)
      case None => Err(UnexpectedEof)
      case Some(chunks) => Ok(chunks)
  }

  /** A read cursor over fixed data. */
  class Cursor {
    const data: seq<Byte>
    var position: nat

    constructor (data: seq<Byte>)
      ensures this.data == data && position == 0
    {
      this.data := data;
      position := 0;
    }

    method ReadExact(n: nat) returns (bytes: Option<seq<Byte>>)
      requires position <= |data|
      modifies this
      ensures position <= |data|
      ensures old(position) + n > |data| ==> bytes == None
      ensures old(position) + n <= |data| ==>
                position == old(position) + n && bytes == Some(data[old(position)..position])
    {
      if position + n > |data| {
        position := |data|;
        bytes := None;
      } else {
        bytes := Some(data[position..position + n]);
        position := position + n;
      }
    }

    /** Header, data rounded up to even length, then the padding dropped. */
    method ReadChunk() returns (c: Option<Chunk>)
      requires position <= |data|
      modifies this
      ensures position <= |data|
      ensures match ChunkAt(data, old(position))
              case None => c == None
              case Some((chunk, next)) => c == Some(chunk) && position == next
    {
      ghost var pos := position;
      var header := ReadExact(8);
      if header.None? {
        return None;
      }
      assert header.value[..4] == data[pos..pos + 4] && header.value[4..8] == data[pos + 4..pos + 8];
      var len := FromBigEndian(header.value[4..8]);
      var padded := (len + 1) / 2 * 2;
      var body := ReadExact(padded);
      if body.None? {
        return None;
      }
      assert body.value[..len] == data[pos + 8..pos + 8 + len];
      c := Some(Chunk(header.value[..4], body.value[..len]));
    }
  }

  /** Reads chunks until the cursor stands exactly at the end. */
  method Parse(data: seq<Byte>) returns (r: Result<seq<Chunk>, IoError>)
    ensures r == Parsed(data)
  {
    var cursor := new Cursor(data);
    var magic := cursor.ReadExact(4);
    if magic.None? {
      return Err(UnexpectedEof);
    }
    if magic.value != BEAM_MAGIC {
      return Err(InvalidData);
    }
    var chunks := [];
    ghost var whole := ChunksFrom(data, 4);
    assert whole.Some? ==> [] + whole.value == whole.value;
    while cursor.position < |data|
      invariant cursor.data == data && 4 <= cursor.position <= |data|
      invariant match ChunksFrom(data, cursor.position)
                case None => whole == None
                case Some(rest) => whole == Some(chunks + rest)
      decreases |data| - cursor.position
    {
      ghost var pos := cursor.position;
      var c := cursor.ReadChunk();
      if c.None? {
        return Err(UnexpectedEof);
      }
      ghost var rest := ChunksFrom(data, cursor.position);
      assert rest.Some? ==> chunks + ([c.value] + rest.value) == chunks + [c.value] + rest.value;
      chunks := chunks + [c.value];
    }
    assert cursor.position == |data| && chunks + [] == chunks;
    r := Ok(chunks);
  }

  // ---- Round trip ------------------------------------------------------------------------------

  predicate Fits(chunks: seq<Chunk>) {
    forall i :: 0 <= i < |chunks| ==> |chunks[i].data| < TWO_32
  }

  predicate KindsOk(chunks: seq<Chunk>) {
    forall i :: 0 <= i < |chunks| ==> KindOk(chunks[i])
  }

  /** Reading back a chunk that was written: its data is cut to the length modulo 2^32. */
  lemma ChunkReadBack(before: seq<Byte>, c: Chunk, after: seq<Byte>)
    requires KindOk(c)
    ensures var n := |c.data| % TWO_32;
            var r := ChunkAt(before + ChunkBytes(c) + after, |before|);
            && r.Some? && r.value.0 == Chunk(c.kind, c.data[..n])
            && (|c.data| < TWO_32 ==> r.value == (c, |before| + |ChunkBytes(c)|))
  {
    hide BigEndian, FromBigEndian;
    var n, pos := |c.data| % TWO_32, |before|;
    var all := before + ChunkBytes(c) + after;
    Widths();
    BigEndianRoundTrip(n, 4);
    assert all[pos..pos + 4] == c.kind;
    assert all[pos + 4..pos + 8] == BigEndian(n, 4);
    assert all[pos + 8..pos + 8 + n] == c.data[..n];
    if |c.data| < TWO_32 {
      assert c.data[..n] == c.data;
    }
  }

  lemma {:induction false} ChunksReadBackIff(before: seq<Byte>, chunks: seq<Chunk>)
    requires KindsOk(chunks)
    ensures ChunksFrom(before + AllChunkBytes(chunks), |before|) == Some(chunks) <==> Fits(chunks)
    decreases |chunks|
  {
    hide ChunkBytes, ChunkAt;
    if chunks == [] {
      assert before + [] == before;
    } else {
      var c, rest := chunks[0], chunks[1..];
      var all := before + AllChunkBytes(chunks);
      assert all == before + ChunkBytes(c) + AllChunkBytes(rest);
      ChunkReadBack(before, c, AllChunkBytes(rest));
      if |c.data| < TWO_32 {
        ChunksReadBackIff(before + ChunkBytes(c), rest);
        assert chunks == [c] + rest;
        assert Fits(chunks) <==> Fits(rest) by {
          assert forall i :: 0 <= i < |rest| ==> rest[i] == chunks[i + 1];
        }
      } else {
        assert ChunkAt(all, |before|).value.0 != c;
      }
    }
  }

  /**
   `parse(to_bytes(f))` gives back the same kinds, data and order exactly when every chunk is shorter
   than 2^32 bytes, whatever the parity of the lengths.
   */
  lemma RoundTripIff(chunks: seq<Chunk>)
    requires KindsOk(chunks)
    ensures Parsed(FileBytes(chunks)) == Ok(chunks) <==> Fits(chunks)
  {
    ChunksReadBackIff(BEAM_MAGIC, chunks);
    assert FileBytes(chunks)[..4] == BEAM_MAGIC;
  }

  lemma {:induction false} ParsedChunksFit(data: seq<Byte>, pos: nat)
    requires pos <= |data|
    ensures var r := ChunksFrom(data, pos);
            r.Some? ==> Fits(r.value) && KindsOk(r.value) && |AllChunkBytes(r.value)| == |data| - pos
    decreases |data| - pos
  {
    hide ChunkAt, ChunkBytes;
    if pos < |data| && ChunksFrom(data, pos).Some? {
      ParsedChunkSize(data, pos);
      ParsedChunksFit(data, ChunkAt(data, pos).value.1);
    }
  }

  lemma ParsedChunkSize(data: seq<Byte>, pos: nat)
    requires pos <= |data| && ChunkAt(data, pos).Some?
    ensures var (c, next) := ChunkAt(data, pos).value;
            |ChunkBytes(c)| == next - pos && |c.data| < TWO_32 && KindOk(c)
  {
    hide BigEndian, FromBigEndian;
  }

  /** Whatever parses is written back at the same length and parses to the same chunks again. */
  lemma ParsedWritesBack(data: seq<Byte>)
    requires Parsed(data).Ok?
    ensures |FileBytes(Parsed(data).value)| == |data|
    ensures Parsed(FileBytes(Parsed(data).value)) == Parsed(data)
  {
    ParsedChunksFit(data, 4);
    RoundTripIff(Parsed(data).value);
  }

  /** A chunk of 2^32 zero bytes is written with length zero and cannot be read back. */
  lemma LongChunkLost(kind: seq<Byte>)
    requires |kind| == 4
    ensures var f := [Chunk(kind, seq(TWO_32, _ => 0))]; Parsed(FileBytes(f)) != Ok(f)
  {
    RoundTripIff([Chunk(kind, seq(TWO_32, _ => 0))]);
  }

  // ---- Files cut short ---------------------------------------------------------------------------

  /** The number of whole chunks in the first `k` bytes, if `k` ends one of them. */
  ghost function WholeChunks(chunks: seq<Chunk>, k: nat): Option<nat> {
    if k == 0 then Some(0)
    else if chunks == [] || k < |ChunkBytes(chunks[0])| then None
    else
      match WholeChunks(chunks[1..], k - |ChunkBytes(chunks[0])|)
      case None => None
      case Some(n) => Some(n + 1)
  }

  lemma {:induction false} WholeChunksIs(chunks: seq<Chunk>, k: nat)
    requires KindsOk(chunks)
    ensures match WholeChunks(chunks, k)
            case Some(n) => n <= |chunks| && k == |AllChunkBytes(chunks[..n])|
            case None => forall n :: 0 <= n <= |chunks| ==> |AllChunkBytes(chunks[..n])| != k
    decreases |chunks|
  {
    hide ChunkBytes;
    assert chunks[..0] == [];
    if k != 0 && chunks != [] {
      var c, rest := chunks[0], chunks[1..];
      forall n | 1 <= n <= |chunks|
        ensures |AllChunkBytes(chunks[..n])| == |ChunkBytes(c)| + |AllChunkBytes(rest[..n - 1])|
      {
        assert chunks[..n][1..] == rest[..n - 1];
      }
      if k >= |ChunkBytes(c)| {
        WholeChunksIs(rest, k - |ChunkBytes(c)|);
      }
    }
  }

  /** A chunk cut short does not read. */
  lemma ChunkPrefixFails(before: seq<Byte>, c: Chunk, k: nat)
    requires KindOk(c) && |c.data| < TWO_32 && 0 < k < |ChunkBytes(c)|
    ensures ChunkAt(before + ChunkBytes(c)[..k], |before|) == None
  {
    hide BigEndian, FromBigEndian;
    var all, pos := before + ChunkBytes(c)[..k], |before|;
    Widths();
    if k >= 8 {
      BigEndianRoundTrip(|c.data|, 4);
      var rest := c.data + Padding(|c.data|);
      assert ChunkBytes(c) == c.kind + BigEndian(|c.data|, 4) + rest;
      assert all == before + c.kind + BigEndian(|c.data|, 4) + rest[..k - 8];
      assert all[pos + 4..pos + 8] == BigEndian(|c.data|, 4);
    }
  }

  lemma {:induction false} ChunksPrefix(before: seq<Byte>, chunks: seq<Chunk>, k: nat)
    requires KindsOk(chunks) && Fits(chunks) && k <= |AllChunkBytes(chunks)|
    ensures ChunksFrom(before + AllChunkBytes(chunks)[..k], |before|) ==
            match WholeChunks(chunks, k)
            case None => None
            case Some(n) => if n <= |chunks| then Some(chunks[..n]) else None
    decreases |chunks|
  {
    hide ChunkBytes, ChunkAt;
    if k == 0 {
      assert chunks[..0] == [];
    } else {
      var c, rest := chunks[0], chunks[1..];
      var all, size := before + AllChunkBytes(chunks)[..k], |ChunkBytes(c)|;
      assert AllChunkBytes(chunks) == ChunkBytes(c) + AllChunkBytes(rest);
      assert Fits(rest) && KindsOk(rest) && KindOk(c) && |c.data| < TWO_32 by {
        assert forall i :: 0 <= i < |rest| ==> rest[i] == chunks[i + 1];
      }
      if k < size {
        assert AllChunkBytes(chunks)[..k] == ChunkBytes(c)[..k];
        ChunkPrefixFails(before, c, k);
      } else {
        var tail := AllChunkBytes(rest)[..k - size];
        assert all == before + ChunkBytes(c) + tail;
        ChunkReadBack(before, c, tail);
        ChunksPrefix(before + ChunkBytes(c), rest, k - size);
        WholeChunksIs(rest, k - size);
        var n := WholeChunks(rest, k - size);
        if n.Some? {
          assert chunks[..n.value + 1] == [c] + rest[..n.value];
        }
      }
    }
  }

  /**
   A file cut short parses exactly if it is cut between two chunks, and then to the chunks before the
   cut; in the middle of a chunk it is an end-of-file error.
   */
  lemma PrefixParsesIff(chunks: seq<Chunk>, k: nat)
    requires KindsOk(chunks) && Fits(chunks) && 4 <= k <= |FileBytes(chunks)|
    ensures var r := Parsed(FileBytes(chunks)[..k]);
            && (r.Ok? <==> exists n :: 0 <= n <= |chunks| && k == 4 + |AllChunkBytes(chunks[..n])|)
            && (r.Ok? ==> r.value <= chunks && |FileBytes(r.value)| == k)
            && (r.Err? ==> r.error == UnexpectedEof)
  {
    hide ChunksFrom, WholeChunks, KindsOk, Fits, AllChunkBytes;
    var data := FileBytes(chunks)[..k];
    PrefixOfFile(chunks, k);
    ChunksPrefix(BEAM_MAGIC, chunks, k - 4);
    WholeChunksIs(chunks, k - 4);
    match WholeChunks(chunks, k - 4) {
      case Some(n) =>
        assert Parsed(data) == Ok(chunks[..n]);
        assert k == 4 + |AllChunkBytes(chunks[..n])|;
      case None =>
        assert Parsed(data) == Err(UnexpectedEof);
    }
  }

  lemma PrefixOfFile(chunks: seq<Chunk>, k: nat)
    requires 4 <= k <= |FileBytes(chunks)|
    ensures FileBytes(chunks)[..k] == BEAM_MAGIC + AllChunkBytes(chunks)[..k - 4]
    ensures FileBytes(chunks)[..k][..4] == BEAM_MAGIC
  {
    hide AllChunkBytes;
  }

  /** Less than the magic is an end-of-file error, another magic is invalid data. */
  lemma BadMagic(data: seq<Byte>)
    ensures |data| < 4 ==> Parsed(data) == Err(UnexpectedEof)
    ensures Parsed(data) == Err(InvalidData) <==> |data| >= 4 && data[..4] != [0x42, 0x45, 0x41, 0x4D]
  {
  }

  /** The layout of a file with one chunk of odd length. */
  lemma WireExample()
    ensures FileBytes([Chunk([0x41, 0x74, 0x6F, 0x6D], [9, 8, 7])]) ==
            [0x42, 0x45, 0x41, 0x4D, 0x41, 0x74, 0x6F, 0x6D, 0, 0, 0, 3, 9, 8, 7, 0]
  {
    WireLength();
    hide BigEndian;
    var c := Chunk([0x41, 0x74, 0x6F, 0x6D], [9, 8, 7]);
    assert ChunkBytes(c) == [0x41, 0x74, 0x6F, 0x6D, 0, 0, 0, 3, 9, 8, 7, 0];
    OneChunk(c);
    hide ChunkBytes;
  }

  lemma OneChunk(c: Chunk)
    ensures AllChunkBytes([c]) == ChunkBytes(c)
  {
    hide ChunkBytes;
    assert [c][1..] == [] && AllChunkBytes([]) == [];
  }

  lemma WireLength()
    ensures BigEndian(3, 4) == [0, 0, 0, 3]
  {
    assert BigEndian(0, 1) == [0];
    assert BigEndian(0, 2) == [0, 0];
    assert BigEndian(0, 3) == [0, 0, 0];
  }
}
