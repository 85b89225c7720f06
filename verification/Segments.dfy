/**
 The segment files of pkg/tsdb/chunks/chunks.go: record format, Reader.Chunk, and Writer.WriteChunks with its batches.
 */
module Segments {
  import opened Bits
  import opened Varint
  import opened Sequences
  import opened ChunkRecord

  /** MagicChunks, format version 1 and padding. */
  const SEGMENT_HEADER: seq<Byte> := [0x85, 0xBD, 0x40, 0xDD, 1, 0, 0, 0]

  // ---------------------------------------------------------------- layout

  /** The checksummed part of a record. */
  function Body(c: Chunk): seq<Byte> {
    [c.encoding] + c.bytes
  }

  function SegmentRecord(crc: Checksum, c: Chunk): (r: seq<Byte>)
    ensures |r| == |UvarintBytes(|c.bytes|)| + ENCODING_SIZE + |c.bytes| + CRC_SIZE
  {
    UvarintBytes(|c.bytes|) + Body(c) + crc(Body(c))
  }

  /** Every record as one element, so that a segment is their concatenation. */
  function RecordList(crc: Checksum, cs: seq<Chunk>): (rs: seq<seq<Byte>>)
    ensures |rs| == |cs|
  {
    seq(|cs|, i requires 0 <= i < |cs| => SegmentRecord(crc, cs[i]))
  }

  function SegmentBytes(crc: Checksum, cs: seq<Chunk>): seq<Byte> {
    SEGMENT_HEADER + Concat(RecordList(crc, cs))
  }

  /** Where the record of cs[i] starts. */
  function Position(crc: Checksum, cs: seq<Chunk>, i: nat): nat
    requires i <= |cs|
  {
    |SegmentBytes(crc, cs[..i])|
  }

  lemma AppendToSegment(crc: Checksum, cs: seq<Chunk>, c: Chunk)
    ensures SegmentBytes(crc, cs + [c]) == SegmentBytes(crc, cs) + SegmentRecord(crc, c)
  {
    hide SegmentRecord;
    var rs := RecordList(crc, cs + [c]);
    assert rs[..|cs|] == RecordList(crc, cs) && rs[|cs|] == SegmentRecord(crc, c);
  }

  /** The record of cs[i], and what follows it in the segment. */
  lemma {:induction false} RecordIn(crc: Checksum, cs: seq<Chunk>, i: nat)
    requires i < |cs|
    ensures Position(crc, cs, i) <= |SegmentBytes(crc, cs)|
    ensures SegmentRecord(crc, cs[i]) <= SegmentBytes(crc, cs)[Position(crc, cs, i)..]
    decreases |cs|
  {
    hide SegmentRecord, SegmentBytes;
    var n := |cs| - 1;
    assert cs == cs[..n] + [cs[n]];
    AppendToSegment(crc, cs[..n], cs[n]);
    if i < n {
      RecordIn(crc, cs[..n], i);
      assert cs[..n][..i] == cs[..i];
    }
  }

  // ---------------------------------------------------------------- Reader

  /** The part of Reader.Chunk that reads a segment; tail is the segment from the record on. */
  function ReadSegmentTail(crc: Checksum, tail: seq<Byte>): Lookup
    requires |tail| >= MAX_LENGTH_FIELD_SIZE
  {
    var (length, n) := Uvarint(tail[..MAX_LENGTH_FIELD_SIZE]);
    if n == 0 then Corruption
    else
      var dataEnd := n + ENCODING_SIZE + length;
      if dataEnd + CRC_SIZE > |tail| then Corruption
      else if crc(tail[n..dataEnd]) != tail[dataEnd..dataEnd + CRC_SIZE] then Corruption
      else if tail[n] != ENC_XOR then Corruption
      else Found(Chunk(tail[n], tail[n + ENCODING_SIZE..dataEnd]))
  }

  /** Reader.Chunk over the segments of a directory, in ascending order. */
  function ReaderChunk(crc: Checksum, segments: seq<seq<Byte>>, ref: UInt64): Lookup {
    var file, start := RefFile(ref), RefOffset(ref);
    if file >= |segments| || start + MAX_LENGTH_FIELD_SIZE > |segments[file]| then Corruption
    else ReadSegmentTail(crc, segments[file][start..])
  }

  lemma ReadSegmentRecord(crc: Checksum, c: Chunk, after: seq<Byte>)
    requires |c.bytes| < TWO32
    ensures var tail := SegmentRecord(crc, c) + after;
            |tail| >= 6 && ReadSegmentTail(crc, tail) == if c.encoding == ENC_XOR then Found(c) else Corruption
  {
    var l := UvarintBytes(|c.bytes|);
    var tail := SegmentRecord(crc, c) + after;
    UvarintSize(|c.bytes|);
    UvarintReads(|c.bytes|, Body(c) + crc(Body(c)) + after);
    hide UvarintBytes, Uvarint;
    assert tail == l + (Body(c) + crc(Body(c)) + after);
    UvarintPrefix(tail, MAX_LENGTH_FIELD_SIZE);
    BodySlices(l, c, crc(Body(c)), after);
  }

  lemma BodySlices(l: seq<Byte>, c: Chunk, sum: seq<Byte>, after: seq<Byte>)
    requires |sum| == 4
    ensures var tail := l + Body(c) + sum + after;
            var n, dataEnd := |l|, |l| + 1 + |c.bytes|;
            && tail[n..dataEnd] == Body(c) && tail[dataEnd..dataEnd + 4] == sum
            && tail[n] == c.encoding && tail[n + 1..dataEnd] == c.bytes
  {
  }

  // ---------------------------------------------------------------- damaged segments

  /**
   Bytes that begin as a record does, whatever they say: a length field, an encoding, data of that length, a checksum.
   */
  ghost predicate BeginsSegmentRecord(tail: seq<Byte>, field: seq<Byte>, body: seq<Byte>, sum: Word) {
    && 1 <= |field| <= 5 && body != [] && Uvarint(field) == (|body| - 1, |field|)
    && field + body + sum <= tail
  }

  lemma SegmentFields(tail: seq<Byte>, field: seq<Byte>, body: seq<Byte>, sum: Word)
    requires BeginsSegmentRecord(tail, field, body, sum)
    ensures |tail| >= 6 && Uvarint(tail[..5]) == (|body| - 1, |field|)
    ensures var n, dataEnd := |field|, |field| + |body|;
            && dataEnd + 4 <= |tail| && tail[n..dataEnd] == body && tail[dataEnd..dataEnd + 4] == sum
            && tail[n] == body[0] && tail[n + 1..dataEnd] == body[1..]
  {
    var after := tail[|field + body + sum|..];
    assert tail == field + (body + sum + after);
    UvarintWhole(field, body + sum + after);
    UvarintPrefix(tail, 5);
    hide Uvarint;
    assert tail[|field|..][..|body|] == body;
  }

  /** They are read if and only if the checksum is that of encoding and data; all other such bytes are corrupt. */
  lemma ReadSegmentStored(crc: Checksum, tail: seq<Byte>, field: seq<Byte>, body: seq<Byte>, sum: Word)
    requires BeginsSegmentRecord(tail, field, body, sum)
    ensures |tail| >= 6
    ensures ReadSegmentTail(crc, tail)
            == if sum == crc(body) && body[0] == 1 then Found(Chunk(1, body[1..])) else Corruption
  {
    hide Uvarint;
    SegmentFields(tail, field, body, sum);
  }

  /** What Reader.Chunk returns is the data of a record whose checksum is right; anything else is corrupt. */
  lemma ReaderVerified(crc: Checksum, segments: seq<seq<Byte>>, ref: UInt64)
    ensures ReaderChunk(crc, segments, ref).Found? || ReaderChunk(crc, segments, ref) == Corruption
    ensures ReaderChunk(crc, segments, ref).Found? ==>
              exists field, sum ::
                var c, file, at := ReaderChunk(crc, segments, ref).chunk, RefFile(ref), RefOffset(ref);
                && file < |segments| && at <= |segments[file]|
                && BeginsSegmentRecord(segments[file][at..], field, [1] + c.bytes, sum)
                && sum == crc([1] + c.bytes) && c.encoding == 1
  {
    hide RefFile, RefOffset;
    if ReaderChunk(crc, segments, ref).Found? {
      var tail := segments[RefFile(ref)][RefOffset(ref)..];
      var (length, n) := Uvarint(tail[..5]);
      var dataEnd := n + 1 + length;
      var c: Chunk, sum: Word := ReaderChunk(crc, segments, ref).chunk, tail[dataEnd..dataEnd + 4];
      UvarintPrefix(tail[..5], n);
      hide Uvarint;
      assert tail[..5][..n] == tail[..n];
      assert [1] + c.bytes == tail[n..dataEnd];
      assert tail[..n] + ([1] + c.bytes) + sum == tail[..dataEnd + 4];
      assert BeginsSegmentRecord(tail, tail[..n], [1] + c.bytes, sum);
    }
  }

  /** A damaged record is refused. */
  lemma ReaderDamaged(crc: Checksum, segments: seq<seq<Byte>>, ref: UInt64, field: seq<Byte>, body: seq<Byte>,
                      sum: Word)
    requires RefFile(ref) < |segments| && RefOffset(ref) <= |segments[RefFile(ref)]|
    requires BeginsSegmentRecord(segments[RefFile(ref)][RefOffset(ref)..], field, body, sum) && sum != crc(body)
    ensures ReaderChunk(crc, segments, ref) == Corruption
  {
    ReadSegmentStored(crc, segments[RefFile(ref)][RefOffset(ref)..], field, body, sum);
    hide RefFile, RefOffset, ReadSegmentTail;
  }

  /** The magic number 0x85BD40DD and the format version 1, at the start of every segment. */
  lemma SegmentStarts(crc: Checksum, cs: seq<Chunk>)
    ensures |SegmentBytes(crc, cs)| >= 8 && SegmentBytes(crc, cs)[..8] == [0x85, 0xBD, 0x40, 0xDD, 1, 0, 0, 0]
  {
  }

  // ---------------------------------------------------------------- every chunk can be read

  ghost predicate Written(crc: Checksum, segments: seq<seq<Byte>>, log: seq<seq<Chunk>>) {
    |segments| == |log| && forall k | 0 <= k < |log| :: segments[k] == SegmentBytes(crc, log[k])
  }

  /** c is in the log, and ref says where. */
  ghost predicate RefersTo(crc: Checksum, log: seq<seq<Chunk>>, ref: UInt64, c: Chunk) {
    exists k: nat, i: nat :: IsAt(crc, log, k, i, ref, c)
  }

  ghost predicate IsAt(crc: Checksum, log: seq<seq<Chunk>>, k: nat, i: nat, ref: UInt64, c: Chunk) {
    k < |log| && i < |log[k]| && log[k][i] == c && ref == ChunkRef(k, Position(crc, log[k], i))
  }

  /** Every offset fits in the lower half of a reference. */
  ghost predicate OffsetsFit(crc: Checksum, log: seq<seq<Chunk>>) {
    forall k, i | 0 <= k < |log| && 0 <= i < |log[k]| :: Position(crc, log[k], i) < TWO32
  }

  /** Reader.Chunk gives back every chunk that the writer was given, by the reference the writer assigned. */
  lemma ReaderReturnsChunk(crc: Checksum, segments: seq<seq<Byte>>, log: seq<seq<Chunk>>, ref: UInt64, c: Chunk)
    requires Written(crc, segments, log) && RefersTo(crc, log, ref, c) && OffsetsFit(crc, log) && |log| <= TWO32
    requires |c.bytes| < TWO32
    ensures ReaderChunk(crc, segments, ref) == if c.encoding == ENC_XOR then Found(c) else Corruption
  {
    hide ChunkRef, RefFile, RefOffset, Position, SegmentBytes, SegmentRecord, ReadSegmentTail;
    var k: nat, i: nat :| IsAt(crc, log, k, i, ref, c);
    var at := Position(crc, log[k], i);
    RefRoundTrip(k, at);
    RecordIn(crc, log[k], i);
    var tail := segments[k][at..];
    ReadSegmentRecord(crc, c, tail[|SegmentRecord(crc, c)|..]);
    assert tail == SegmentRecord(crc, c) + tail[|SegmentRecord(crc, c)|..];
  }
}
