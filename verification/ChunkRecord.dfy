/**
 The record format of a head chunk file, and the two readers of pkg/tsdb/chunks/head_chunks.go: Chunk, which reads
 one record at a known offset, and IterateAllChunks, which scans the files of a directory from their first byte.
 The Castagnoli CRC-32 is a parameter: any function from bytes to four bytes.
 */
module ChunkRecord {
  import opened Bits
  import opened Varint

  const HEADER_SIZE := 8
  const SERIES_REF_SIZE := 8
  const MINT_MAXT_SIZE := 8
  const ENCODING_SIZE := 1
  const MAX_LENGTH_FIELD_SIZE := 5
  const CRC_SIZE := 4
  const MAX_META_SIZE := SERIES_REF_SIZE + 2 * MINT_MAXT_SIZE + ENCODING_SIZE + MAX_LENGTH_FIELD_SIZE + CRC_SIZE
  const MAX_FILE_SIZE := 128 * 1024 * 1024
  const ENC_XOR: Byte := 1
  const TWO32 := 0x1_0000_0000

  /** Magic number, format version 1 and padding. */
  const HEADER: seq<Byte> := [0x01, 0x30, 0xBC, 0x91, 1, 0, 0, 0]

  type Word = s: seq<Byte> | |s| == 4 witness [0, 0, 0, 0]
  type Checksum = seq<Byte> -> Word

  datatype Chunk = Chunk(encoding: Byte, bytes: seq<Byte>)

  /** One WriteChunk call. */
  datatype Entry = Entry(series: UInt64, mint: Int64, maxt: Int64, chunk: Chunk)

  // ---------------------------------------------------------------- layout

  /** What WriteChunk puts in byteBuf. */
  function Meta(e: Entry): (m: seq<Byte>)
    ensures |m| == 25 + |UvarintBytes(|e.chunk.bytes|)|
  {
    ToBigEndian(e.series, 8) + ToBigEndian(ToUInt64(e.mint), 8) + ToBigEndian(ToUInt64(e.maxt), 8)
    + [e.chunk.encoding] + UvarintBytes(|e.chunk.bytes|)
  }

  function Record(crc: Checksum, e: Entry): (r: seq<Byte>)
    ensures |r| == RecordSize(e)
  {
    Meta(e) + e.chunk.bytes + crc(Meta(e) + e.chunk.bytes)
  }

  function RecordSize(e: Entry): nat {
    |Meta(e)| + |e.chunk.bytes| + CRC_SIZE
  }

  function Records(crc: Checksum, es: seq<Entry>): (r: seq<Byte>)
  {
    if es == [] then [] else Records(crc, es[..|es| - 1]) + Record(crc, es[|es| - 1])
  }

  function FileBytes(crc: Checksum, es: seq<Entry>): seq<Byte> {
    HEADER + Records(crc, es)
  }

  /** Where the record of es[i] starts in the file. */
  function Offset(crc: Checksum, es: seq<Entry>, i: nat): nat
    requires i <= |es|
  {
    HEADER_SIZE + |Records(crc, es[..i])|
  }

  /** The length field holds 32 bits. */
  predicate SizesFit(es: seq<Entry>) {
    forall i | 0 <= i < |es| :: |es[i].chunk.bytes| < TWO32
  }

  /** chunkRef: the file number above 32 bits of offset. */
  function ChunkRef(file: nat, offset: nat): UInt64 {
    Or64(Shl64(file, 32), offset % TWO64);
    Or(Shl64(file, 32), offset % TWO64)
  }

  function RefFile(ref: UInt64): nat { Shr(ref, 32) }

  /** (ref << 32) >> 32 */
  function RefOffset(ref: UInt64): nat { Shr(Shl64(ref, 32), 32) }

  /** Shifting a word by 32 drops its upper half. */
  lemma Shl64Low(x: nat)
    ensures Shl64(x, 32) == Shl(x % TWO32, 32) == (x % TWO32) * TWO32
  {
    hide Shl;
    var low := x % TWO32;
    ShlBytes(x);
    ShlBytes(low);
    assert x * TWO32 == (x / TWO32) * TWO64 + low * TWO32;
    DivModUnique(x / TWO32, low * TWO32, TWO64);
  }

  /** A reference keeps the offset and the low 32 bits of the file number. */
  lemma RefRoundTrip(file: nat, offset: nat)
    requires offset < TWO32
    ensures RefFile(ChunkRef(file, offset)) == file % TWO32 && RefOffset(ChunkRef(file, offset)) == offset
  {
    hide Shl, Shl64, Shr, Or, Low, Pow2;
    Pow2Values();
    var low := file % TWO32;
    Shl64Low(file);
    OrDisjoint(low, offset, 32);
    ShlSplit(low, offset, 32);
    var ref := ChunkRef(file, offset);
    assert ref == low * TWO32 + offset;
    DivModUnique(low, offset, TWO32);
    Shl64Low(ref);
    ShlSplit(offset, 0, 32);
  }

  lemma {:induction false} RecordsConcat(crc: Checksum, a: seq<Entry>, b: seq<Entry>)
    ensures Records(crc, a + b) == Records(crc, a) + Records(crc, b)
  {
    if b == [] {
      assert a + b == a;
    } else {
      var b', e := b[..|b| - 1], b[|b| - 1];
      assert b == b' + [e] && a + b == a + b' + [e];
      hide Record, Records;
      RecordsConcat(crc, a, b');
      assert Records(crc, a) + Records(crc, b') + Record(crc, e)
             == Records(crc, a) + (Records(crc, b') + Record(crc, e));
    }
  }

  /** The record of es[i] is the part of the file between two consecutive offsets. */
  lemma RecordAt(crc: Checksum, es: seq<Entry>, i: nat)
    requires i < |es|
    ensures Offset(crc, es, i + 1) == Offset(crc, es, i) + RecordSize(es[i]) <= |FileBytes(crc, es)|
    ensures FileBytes(crc, es)[Offset(crc, es, i)..Offset(crc, es, i + 1)] == Record(crc, es[i])
  {
    hide Record, RecordSize;
    assert es[..i + 1] == es[..i] + [es[i]];
    assert es == es[..i + 1] + es[i + 1..];
    RecordsConcat(crc, es[..i], [es[i]]);
    RecordsConcat(crc, es[..i + 1], es[i + 1..]);
    var whole := FileBytes(crc, es);
    assert whole == HEADER + Records(crc, es[..i]) + Record(crc, es[i]) + Records(crc, es[i + 1..]);
  }

  lemma {:induction false} OffsetsIncrease(crc: Checksum, es: seq<Entry>, i: nat, j: nat)
    requires i < j <= |es|
    ensures Offset(crc, es, i) + RecordSize(es[i]) <= Offset(crc, es, j)
    ensures Offset(crc, es, i) < Offset(crc, es, j)
  {
    hide RecordSize, Offset, FileBytes, Records;
    RecordAt(crc, es, j - 1);
    Positive(es[j - 1]);
    Positive(es[i]);
    if i + 1 < j {
      OffsetsIncrease(crc, es, i, j - 1);
    }
  }

  lemma Positive(e: Entry)
    ensures RecordSize(e) >= 30
  {
  }

  /** The offsets of a log do not move when it grows. */
  lemma OffsetOfPrefix(crc: Checksum, es: seq<Entry>, more: seq<Entry>, i: nat)
    requires i <= |es|
    ensures Offset(crc, es + more, i) == Offset(crc, es, i)
  {
    assert (es + more)[..i] == es[..i];
  }

  // ---------------------------------------------------------------- reading one chunk

  datatype Lookup =
    | Found(chunk: Chunk)
    | MapperClosed
    | Corruption
    | SliceOutOfRange  // the Go code slices past the end of the mapping and panics

  function U64(s: seq<Byte>): UInt64
    requires |s| == 8
  {
    BigEndianBits(s);
    Pow2Values();
    BigEndian(s)
  }

  /** A file mapped with a length: cut off, or followed by zeros as a preallocated file is. */
  function Mapped(file: seq<Byte>, size: nat): (b: seq<Byte>)
    ensures |b| == size
  {
    if size <= |file| then file[..size] else file + seq(size - |file|, i => 0)
  }

  /** The part of Chunk that reads the mapping; tail is the mapping from the record on. */
  function ReadTail(crc: Checksum, tail: seq<Byte>): Lookup
    requires |tail| >= 29
  {
    if |tail| == 29 then SliceOutOfRange
    else
      var (length, n) := Uvarint(tail[25..30]);
      if n == 0 then Corruption
      else
        var dataEnd := 25 + n + length;
        if dataEnd > |tail| then Corruption
        else if dataEnd + CRC_SIZE > |tail| then SliceOutOfRange
        else if crc(tail[..dataEnd]) != tail[dataEnd..dataEnd + CRC_SIZE] then Corruption
        else if tail[24] != ENC_XOR then Corruption
        else Found(Chunk(tail[24], tail[25 + n..dataEnd]))
  }

  function ReadChunk(crc: Checksum, view: seq<Byte>, offset: nat): Lookup
  {
    if offset + 24 + MAX_LENGTH_FIELD_SIZE > |view| then Corruption else ReadTail(crc, view[offset..])
  }

  lemma LengthField(e: Entry, rest: seq<Byte>)
    requires |e.chunk.bytes| < TWO32 && |rest| >= 4
    ensures var tail := Meta(e) + e.chunk.bytes + rest;
            && |tail| >= 30 && tail[24] == e.chunk.encoding
            && Uvarint(tail[25..30]) == (|e.chunk.bytes|, |UvarintBytes(|e.chunk.bytes|)|)
  {
    var l := UvarintBytes(|e.chunk.bytes|);
    var tail := Meta(e) + e.chunk.bytes + rest;
    UvarintSize(|e.chunk.bytes|);
    UvarintReads(|e.chunk.bytes|, e.chunk.bytes + rest);
    assert tail[25..] == l + (e.chunk.bytes + rest);
    UvarintPrefix(tail[25..], 5);
    assert tail[25..][..5] == tail[25..30];
  }

  /** A whole record reads back as the chunk that was written. */
  lemma ReadRecord(crc: Checksum, e: Entry, after: seq<Byte>)
    requires |e.chunk.bytes| < TWO32
    ensures var tail := Record(crc, e) + after;
            |tail| >= 30 && ReadTail(crc, tail) == if e.chunk.encoding == ENC_XOR then Found(e.chunk) else Corruption
  {
    hide Meta;
    var body := Meta(e) + e.chunk.bytes;
    var sum := crc(body);
    var tail := Record(crc, e) + after;
    assert tail == Meta(e) + e.chunk.bytes + (sum + after);
    LengthField(e, sum + after);
    var dataEnd := |body|;
    assert tail[..dataEnd] == body;
    assert tail[dataEnd..dataEnd + 4] == sum;
    assert tail[|Meta(e)|..dataEnd] == e.chunk.bytes;
  }

  /**
   Bytes that begin as a record does, whatever they say: 24 bytes of ids, an encoding, a length field, data of that
   length, and a checksum.
   */
  ghost predicate BeginsWith(tail: seq<Byte>, head: seq<Byte>, data: seq<Byte>, sum: Word) {
    && 26 <= |head| <= 30 && Uvarint(head[25..]) == (|data|, |head| - 25)
    && head + data + sum <= tail
  }

  lemma StoredFields(tail: seq<Byte>, head: seq<Byte>, data: seq<Byte>, sum: Word)
    requires BeginsWith(tail, head, data, sum)
    ensures |tail| >= 30 && Uvarint(tail[25..30]) == (|data|, |head| - 25) && tail[24] == head[24]
    ensures var dataEnd := |head| + |data|;
            && dataEnd + 4 <= |tail| && tail[..dataEnd] == head + data && tail[dataEnd..dataEnd + 4] == sum
            && tail[|head|..dataEnd] == data
  {
    var field, after := head[25..], tail[|head + data + sum|..];
    assert tail == head + data + sum + after;
    assert tail[25..] == field + (data + sum + after);
    UvarintWhole(field, data + sum + after);
    UvarintPrefix(tail[25..], 5);
    assert tail[25..][..5] == tail[25..30];
    StoredParts(head, data, sum, after);
  }

  /** They are read if and only if the checksum is that of the bytes before it; all other such bytes are corrupt. */
  lemma ReadStored(crc: Checksum, tail: seq<Byte>, head: seq<Byte>, data: seq<Byte>, sum: Word)
    requires BeginsWith(tail, head, data, sum)
    ensures |tail| >= 30
    ensures ReadTail(crc, tail)
            == if sum == crc(head + data) && head[24] == 1 then Found(Chunk(1, data)) else Corruption
  {
    hide Uvarint;
    StoredFields(tail, head, data, sum);
  }

  lemma StoredParts(head: seq<Byte>, data: seq<Byte>, sum: seq<Byte>, after: seq<Byte>)
    requires |sum| == 4
    ensures var tail, dataEnd := head + data + sum + after, |head| + |data|;
            && tail[..|head|] == head && tail[|head|..dataEnd] == data && tail[..dataEnd] == head + data
            && tail[dataEnd..dataEnd + 4] == sum && tail[dataEnd + 4..] == after
  {
  }

  /** What the reader returns is the data of a record whose checksum is right. */
  lemma ReadVerified(crc: Checksum, tail: seq<Byte>)
    requires |tail| >= 29 && ReadTail(crc, tail).Found?
    ensures exists head, sum ::
              var c := ReadTail(crc, tail).chunk;
              BeginsWith(tail, head, c.bytes, sum) && sum == crc(head + c.bytes) && head[24] == c.encoding == 1
  {
    var (length, n) := Uvarint(tail[25..30]);
    var head, dataEnd := tail[..25 + n], 25 + n + length;
    var c: Chunk, sum: Word := ReadTail(crc, tail).chunk, tail[dataEnd..dataEnd + 4];
    UvarintPrefix(tail[25..30], n);
    hide Uvarint;
    assert tail[25..30][..n] == tail[25..25 + n] == head[25..];
    assert head + c.bytes == tail[..dataEnd] && head + c.bytes + sum == tail[..dataEnd + 4];
    assert BeginsWith(tail, head, c.bytes, sum);
  }

  /** A record that the mapping cuts off is never returned. */
  lemma ReadCutOff(crc: Checksum, e: Entry, size: nat)
    requires |e.chunk.bytes| < TWO32 && 29 <= size < RecordSize(e)
    ensures !ReadTail(crc, Record(crc, e)[..size]).Found?
  {
    hide Meta;
    var body := Meta(e) + e.chunk.bytes;
    var tail := Record(crc, e)[..size];
    assert Record(crc, e) == Meta(e) + e.chunk.bytes + crc(body);
    LengthField(e, crc(body));
    if size >= 30 {
      assert tail[25..30] == Record(crc, e)[25..30];
    }
  }

  /**
   What Chunk reads in a mapping of the file, for the record of any entry: the chunk exactly if the mapping covers it.
   */
  lemma ReadFromFile(crc: Checksum, es: seq<Entry>, i: nat, size: nat)
    requires i < |es| && SizesFit(es)
    ensures var r := ReadChunk(crc, Mapped(FileBytes(crc, es), size), Offset(crc, es, i));
            if Offset(crc, es, i + 1) <= size && es[i].chunk.encoding == ENC_XOR then r == Found(es[i].chunk)
            else !r.Found?
  {
    hide Record, RecordSize, FileBytes, Offset, ReadTail;
    var file, at, end := FileBytes(crc, es), Offset(crc, es, i), Offset(crc, es, i + 1);
    RecordAt(crc, es, i);
    Positive(es[i]);
    var view := Mapped(file, size);
    if end <= size {
      assert view[at..] == Record(crc, es[i]) + view[end..] by {
        assert forall k | at <= k < end :: view[k] == file[k] == file[at..end][k - at];
      }
      ReadRecord(crc, es[i], view[end..]);
    } else if at + 29 <= size {
      assert view[at..] == Record(crc, es[i])[..size - at] by {
        assert forall k | at <= k < size :: view[k] == file[k] == file[at..end][k - at];
      }
      ReadCutOff(crc, es[i], size - at);
    }
  }
}
