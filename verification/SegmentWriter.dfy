/**
 Writer of pkg/tsdb/chunks/chunks.go: WriteChunks splits its chunks into batches, one segment each.
 A segment is what has been written to it; the bufio.Writer in between is flushed before a segment is left or read.
 */
module SegmentWriter {
  import opened Bits
  import opened Varint
  import opened Sequences
  import opened ChunkRecord
  import opened Segments

  /** What WriteChunks reckons for some chunks: 10 bytes beside the data of each, as the length field counts as five. */
  function TotalSize(cs: seq<Chunk>): nat {
    if cs == [] then 0 else TotalSize(cs[..|cs| - 1]) + |cs[|cs| - 1].bytes| + 10
  }

  /** Where batch k starts in its segment: the first one goes on with a segment that holds chunks. */
  function Base(n: nat, k: nat): nat {
    if k == 0 && n > HEADER_SIZE then n else HEADER_SIZE
  }

  /** A batch fits in its segment, or is as small as it can be. */
  predicate BatchFits(size: nat, n: nat, k: nat, batch: seq<Chunk>) {
    || Base(n, k) + TotalSize(batch) <= size
    || |batch| <= if k == 0 && n > HEADER_SIZE then 0 else 1
  }

  /** The next chunk would not have fitted in the batch. */
  predicate BatchFull(size: nat, n: nat, k: nat, batch: seq<Chunk>, next: Chunk) {
    Base(n, k) + TotalSize(batch) + |next.bytes| + 10 > size
  }

  /** The batches are the chunks in order, none too large, and none cut earlier than it had to be. */
  ghost predicate GoodBatches(size: nat, n: nat, chks: seq<Chunk>, batches: seq<seq<Chunk>>) {
    && batches != [] && Concat(batches) == chks
    && (forall k | 0 <= k < |batches| :: BatchFits(size, n, k, batches[k]))
    && (forall k | 1 <= k < |batches| :: batches[k] != [] && BatchFull(size, n, k - 1, batches[k - 1], batches[k][0]))
  }

  lemma GrowLast(size: nat, n: nat, chks: seq<Chunk>, batches: seq<seq<Chunk>>, c: Chunk)
    requires GoodBatches(size, n, chks, batches)
    requires var k := |batches| - 1; BatchFits(size, n, k, batches[k] + [c])
    requires |batches| > 1 ==> batches[|batches| - 1] != []
    ensures var k := |batches| - 1; GoodBatches(size, n, chks + [c], batches[k := batches[k] + [c]])
  {
    hide BatchFits, BatchFull;
    var k := |batches| - 1;
    var batches' := batches[k := batches[k] + [c]];
    assert batches'[..k] == batches[..k];
    assert Concat(batches') == Concat(batches[..k]) + (batches[k] + [c]);
    forall j | 1 <= j <= k ensures batches'[j] != [] && BatchFull(size, n, j - 1, batches'[j - 1], batches'[j][0]) {
      assert batches[j] != [] && batches'[j][0] == batches[j][0];
    }
  }

  lemma StartBatch(size: nat, n: nat, chks: seq<Chunk>, batches: seq<seq<Chunk>>, c: Chunk)
    requires GoodBatches(size, n, chks, batches)
    requires var k := |batches| - 1; BatchFull(size, n, k, batches[k], c)
    ensures GoodBatches(size, n, chks + [c], batches + [[c]])
  {
    hide BatchFull;
    var batches' := batches + [[c]];
    assert batches'[..|batches|] == batches;
    assert BatchFits(size, n, |batches|, [c]);
  }

  lemma NoBatch(size: nat, n: nat, chks: seq<Chunk>)
    ensures chks[..0] == [] && GoodBatches(size, n, [], [[]]) && TotalSize(chks[0..0]) == 0
  {
    var batches: seq<seq<Chunk>> := [[]];
    assert batches[..0] == [];
  }

  lemma TotalAppend(cs: seq<Chunk>, c: Chunk)
    ensures TotalSize(cs + [c]) == TotalSize(cs) + |c.bytes| + 10
  {
    assert (cs + [c])[..|cs|] == cs;
  }

  /** The segments hold the log; every one is within the segment size, or holds at most one chunk. */
  ghost predicate SegmentsOk(crc: Checksum, size: nat, files: seq<seq<Byte>>, log: seq<seq<Chunk>>) {
    && Written(crc, files, log)
    && forall k | 0 <= k < |log| :: |files[k]| <= size || |log[k]| <= 1
  }

  class Writer {
    const crc: Checksum
    const segmentSize: nat
    var files: seq<seq<Byte>>
    var n: nat
    ghost var log: seq<seq<Chunk>>

    ghost predicate Valid()
      reads this
    {
      && SegmentsOk(crc, segmentSize, files, log)
      && n == if files == [] then 0 else |files[|files| - 1]|
    }

    /** newWriter */
    constructor (crc: Checksum, segmentSize: int)
      ensures Valid() && files == [] && log == [] && this.crc == crc
      ensures this.segmentSize == if segmentSize <= 0 then 512 * 1024 * 1024 else segmentSize
    {
      this.crc := crc;
      this.segmentSize := if segmentSize <= 0 then 512 * 1024 * 1024 else segmentSize;
      files, n, log := [], 0, [];
    }

    /** cut */
    method Cut()
      requires Valid()
      modifies this
      ensures Valid() && log == old(log) + [[]] && n == HEADER_SIZE
    {
      EmptySegment(crc);
      files := files + [SEGMENT_HEADER];
      n := HEADER_SIZE;
      log := log + [[]];
    }

    method WriteBytes(b: seq<Byte>)
      requires files != []
      modifies `files, `n
      ensures n == old(n) + |b| && files == old(files)[|old(files)| - 1 := old(files[|files| - 1]) + b]
    {
      files := files[|files| - 1 := files[|files| - 1] + b];
      n := n + |b|;
    }

    /** The part of WriteChunks that divides the chunks into batches. */
    method MakeBatches(chks: seq<Chunk>) returns (batches: seq<seq<Chunk>>)
      ensures GoodBatches(segmentSize, n, chks, batches)
    {
      hide GoodBatches, TotalSize;
      var batchSize, batchStart, firstBatch := 0, 0, true;
      batches := [[]];
      NoBatch(segmentSize, n, chks);
      for i := 0 to |chks|
        invariant batchStart <= i && batches != [] && batches[|batches| - 1] == chks[batchStart..i]
        invariant batchSize == TotalSize(chks[batchStart..i])
        invariant GoodBatches(segmentSize, n, chks[..i], batches)
        invariant |batches| > 1 ==> batches[|batches| - 1] != []
        invariant n > HEADER_SIZE ==> (firstBatch <==> |batches| == 1)
        invariant n <= HEADER_SIZE ==> (i == 0 <==> batches[|batches| - 1] == [])
      {
        var chk := chks[i];
        var chkSize := MAX_LENGTH_FIELD_SIZE + ENCODING_SIZE + |chk.bytes| + CRC_SIZE;
        TotalAppend(chks[batchStart..i], chk);
        assert chks[batchStart..i + 1] == chks[batchStart..i] + [chk];
        assert chks[..i + 1] == chks[..i] + [chk];
        batchSize := batchSize + chkSize;
        var cutNewBatch := i != 0 && batchSize + HEADER_SIZE > segmentSize;
        if firstBatch && n > HEADER_SIZE {
          cutNewBatch := batchSize + n > segmentSize;
          if cutNewBatch {
            firstBatch := false;
          }
        }
        if cutNewBatch {
          StartBatch(segmentSize, n, chks[..i], batches, chk);
          TotalAppend([], chk);
          assert chks[i..i + 1] == [chk] == [] + [chk];
          batchStart := i;
          assert (batches + [[]])[..|batches|] == batches;
          batches := batches + [[]];
          batchSize := chkSize;
        } else {
          GrowLast(segmentSize, n, chks[..i], batches, chk);
        }
        ghost var shape := if cutNewBatch then batches[..|batches| - 1] + [[chk]]
                           else batches[|batches| - 1 := batches[|batches| - 1] + [chk]];
        batches := batches[|batches| - 1 := chks[batchStart..i + 1]];
        assert batches == shape;
      }
      assert chks[..|chks|] == chks;
    }

    /** The four writes of one record: length, encoding, data, checksum. */
    method WriteRecord(chk: Chunk)
      requires files != []
      modifies `files, `n
      ensures n == old(n) + |SegmentRecord(crc, chk)|
      ensures files == old(files)[|old(files)| - 1 := old(files[|files| - 1]) + SegmentRecord(crc, chk)]
    {
      hide SegmentRecord, UvarintBytes;
      WriteBytes(UvarintBytes(|chk.bytes|));
      WriteBytes([chk.encoding]);
      WriteBytes(chk.bytes);
      WriteBytes(crc([chk.encoding] + chk.bytes));
      RecordParts(crc, chk, old(files[|files| - 1]));
    }

    /** One turn of writeChunks; the reference says where the record starts. */
    method WriteOne(chk: Chunk) returns (ref: UInt64)
      requires files != [] && Written(crc, files, log) && n == |files[|files| - 1]| && |chk.bytes| < TWO32
      modifies `files, `n, `log
      ensures |files| == |log| == |old(log)| && Written(crc, files, log) && n == |files[|files| - 1]|
      ensures n <= old(n) + |chk.bytes| + 10
      ensures forall k | 0 <= k < |files| - 1 :: files[k] == old(files[k])
      ensures log == old(log)[|old(log)| - 1 := old(log[|log| - 1]) + [chk]]
      ensures IsAt(crc, log, |log| - 1, |old(log[|log| - 1])|, ref, chk)
    {
      hide SegmentRecord, SegmentBytes, ChunkRef, UvarintBytes;
      var seqNo := |files| - 1;
      ghost var before := log[seqNo];
      UvarintSize(|chk.bytes|);
      RecordSizeIs(crc, chk);
      AppendToSegment(crc, before, chk);
      WholePosition(crc, before);
      PositionOfPrefix(crc, before, chk, |before|);
      ref := ChunkRef(seqNo, n);
      WriteRecord(chk);
      log := log[seqNo := before + [chk]];
    }

    /** writeChunks: the records of one batch; refs are what the chunks are given. */
    method WriteBatch(chks: seq<Chunk>) returns (refs: seq<UInt64>)
      requires Valid() && files != [] && forall c | c in chks :: |c.bytes| < TWO32
      requires n + TotalSize(chks) <= segmentSize || |log[|log| - 1]| + |chks| <= 1 || chks == []
      modifies this
      ensures Valid() && files != [] && |refs| == |chks|
      ensures log == old(log)[|old(log)| - 1 := old(log[|log| - 1]) + chks]
      ensures forall j | 0 <= j < |chks| :: IsAt(crc, log, |log| - 1, |old(log[|log| - 1])| + j, refs[j], chks[j])
    {
      hide IsAt, Written, TotalSize, Extends, Concat, SegmentBytes;
      WrittenSizes(crc, files, log);
      refs := [];
      var seqNo := |files| - 1;
      ghost var before, n0 := log[seqNo], n;
      assert before + [] == before && log == log[seqNo := before];
      for i := 0 to |chks|
        invariant |files| == |log| == |old(log)| && n == |files[seqNo]| && |refs| == i && Written(crc, files, log)
        invariant log == old(log)[seqNo := before + chks[..i]]
        invariant forall k | 0 <= k < seqNo :: files[k] == old(files[k])
        invariant n <= n0 + TotalSize(chks[..i]) && (i == 0 ==> n == n0)
        invariant forall j | 0 <= j < i :: IsAt(crc, log, seqNo, |before| + j, refs[j], chks[j])
      {
        var chk := chks[i];
        assert chk in chks;
        TotalAppend(chks[..i], chk);
        assert chks[..i + 1] == chks[..i] + [chk];
        assert before + chks[..i + 1] == before + chks[..i] + [chk];
        ghost var log0 := log;
        var ref := WriteOne(chk);
        ConcatGrowLast(log0, [chk]);
        assert log == log0[seqNo := log0[seqNo] + [chk]];
        forall j | 0 <= j < i ensures IsAt(crc, log, seqNo, |before| + j, refs[j], chks[j]) {
          StaysAt(crc, log0, log, seqNo, |before| + j, refs[j], chks[j]);
        }
        refs := refs + [ref];
      }
      assert chks[..|chks|] == chks;
    }

    /** A batch may be written where it was made for. */
    ghost predicate HasRoom(batch: seq<Chunk>)
      requires log != []
      reads this
    {
      n + TotalSize(batch) <= segmentSize || |log[|log| - 1]| + |batch| <= 1 || batch == []
    }

    /** One turn of the loop of WriteChunks: a batch, and a new segment if another batch follows. */
    method WriteAndCut(batch: seq<Chunk>, cut: bool, ghost before: seq<seq<Chunk>>, ghost refs: seq<UInt64>,
                       ghost done: seq<Chunk>)
      returns (more: seq<UInt64>)
      requires Valid() && files != [] && log != [] && HasRoom(batch) && forall c | c in batch :: |c.bytes| < TWO32
      requires Stored(crc, before, log, refs, done)
      modifies this
      ensures Valid() && files != [] && log != [] && Stored(crc, before, log, refs + more, done + batch)
      ensures cut ==> n == HEADER_SIZE && log[|log| - 1] == []
      ensures log == GrownBy(old(log), batch) + if cut then [[]] else []
    {
      hide SegmentsOk, Stored, TotalSize, IsAt, Extends;
      ghost var log0 := log;
      more := WriteBatch(batch);
      StoredBatch(crc, before, log0, refs, done, batch, more);
      if cut {
        StoredCut(crc, before, log, refs + more, done + batch);
        Cut();
      }
    }

    /**
     WriteChunks: the chunks go, in order, behind what was written before; each reference tells where its chunk is. The
     first batch goes on with the last segment, and every other one is a segment of its own.
     */
    method WriteChunks(chks: seq<Chunk>) returns (refs: seq<UInt64>)
      requires Valid() && forall c | c in chks :: |c.bytes| < TWO32
      modifies this
      ensures Valid() && Stored(crc, old(log), log, refs, chks)
      ensures exists batches ::
                GoodBatches(segmentSize, old(n), chks, batches) && log == Laid(old(log), batches, |batches|)
    {
      hide Laid, GrownBy, GoodBatches, SegmentsOk, Stored, Concat, TotalSize, IsAt, Extends, BatchFits, BatchFull;
      ghost var n0 := n;
      var batches := MakeBatches(chks);
      StartsEmpty(crc, segmentSize, files, log);
      StoredNothing(crc, log);
      if n == 0 {
        StoredCut(crc, log, log, [], []);
        Cut();
      }
      assert log == Started(old(log)) by {
        StartedIs(old(log));
        assert old(log) == [] ==> old(log) + [[]] == [[]];
      }
      FirstHasRoom(crc, segmentSize, files, log, n0, n, chks, batches);
      BatchChunks(segmentSize, n0, chks, batches);
      refs := [];
      ghost var done: seq<Chunk> := [];
      for k := 0 to |batches|
        invariant Valid() && files != [] && log != []
        invariant k < |batches| ==> HasRoom(batches[k])
        invariant done == Concat(batches[..k]) && Stored(crc, old(log), log, refs, done)
        invariant if k == 0 then log == Started(old(log))
                  else log == Laid(old(log), batches, k) + if k < |batches| then [[]] else []
      {
        var batch := batches[k];
        assert forall c: Chunk | c in batch :: |c.bytes| < TWO32;
        ConcatPrefix(batches, k);
        ghost var log0 := log;
        var more := WriteAndCut(batch, k < |batches| - 1, old(log), refs, done);
        LaidNext(old(log), batches, k, log0);
        if k < |batches| - 1 {
          LaterHasRoom(segmentSize, n0, chks, batches, k + 1);
        }
        refs := refs + more;
        done := done + batch;
      }
      assert batches[..|batches|] == batches;
    }
  }

  // ---------------------------------------------------------------- where the chunks are

  /** The segments before anything is written: one is started if there is none. */
  function Started(before: seq<seq<Chunk>>): (log: seq<seq<Chunk>>)
    ensures log != []
  {
    if before == [] then [[]] else before
  }

  /** A batch behind the chunks of the last segment. */
  function GrownBy(log: seq<seq<Chunk>>, batch: seq<Chunk>): seq<seq<Chunk>>
    requires log != []
  {
    log[|log| - 1 := log[|log| - 1] + batch]
  }

  /** The first k batches: the first goes on with the last segment, every other one is a new segment. */
  function Laid(before: seq<seq<Chunk>>, batches: seq<seq<Chunk>>, k: nat): seq<seq<Chunk>>
    requires 1 <= k <= |batches|
  {
    GrownBy(Started(before), batches[0]) + batches[1..k]
  }

  lemma StartedIs(before: seq<seq<Chunk>>)
    ensures Started(before) == if before == [] then [[]] else before
  {
  }

  /** A writer without segments has written nothing, and one with segments at least a header. */
  lemma StartsEmpty(crc: Checksum, size: nat, files: seq<seq<Byte>>, log: seq<seq<Chunk>>)
    requires SegmentsOk(crc, size, files, log)
    ensures |files| == |log| && forall k | 0 <= k < |files| :: |files[k]| >= HEADER_SIZE
  {
  }

  lemma LaidNext(before: seq<seq<Chunk>>, batches: seq<seq<Chunk>>, k: nat, log: seq<seq<Chunk>>)
    requires k < |batches| && log == if k == 0 then Started(before) else Laid(before, batches, k) + [[]]
    ensures log != [] && GrownBy(log, batches[k]) == Laid(before, batches, k + 1)
  {
    if k > 0 {
      assert [] + batches[k] == batches[k];
      assert batches[1..k + 1] == batches[1..k] + [batches[k]];
    }
  }

  /** The chunks were added at the end of the log, and the references tell where each of them is. */
  ghost predicate Stored(crc: Checksum, before: seq<seq<Chunk>>, log: seq<seq<Chunk>>, refs: seq<UInt64>,
                         chks: seq<Chunk>) {
    && |refs| == |chks| && Concat(log) == Concat(before) + chks && Extends(before, log)
    && forall j | 0 <= j < |chks| :: RefersTo(crc, log, refs[j], chks[j])
  }

  lemma StoredNothing(crc: Checksum, log: seq<seq<Chunk>>)
    ensures Stored(crc, log, log, [], []) && Concat<Chunk>([]) == []
  {
  }

  lemma StoredCut(crc: Checksum, before: seq<seq<Chunk>>, log: seq<seq<Chunk>>, refs: seq<UInt64>, chks: seq<Chunk>)
    requires Stored(crc, before, log, refs, chks)
    ensures Stored(crc, before, log + [[]], refs, chks)
  {
    hide RefersTo;
    forall j | 0 <= j < |chks| ensures RefersTo(crc, log + [[]], refs[j], chks[j]) {
      RefersStays(crc, log, log + [[]], refs[j], chks[j]);
    }
  }

  lemma StoredBatch(crc: Checksum, before: seq<seq<Chunk>>, log: seq<seq<Chunk>>, refs: seq<UInt64>, chks: seq<Chunk>,
                    batch: seq<Chunk>, more: seq<UInt64>)
    requires Stored(crc, before, log, refs, chks) && log != [] && |more| == |batch|
    requires var last := |log| - 1;
             var log' := log[last := log[last] + batch];
             forall j | 0 <= j < |batch| :: IsAt(crc, log', last, |log[last]| + j, more[j], batch[j])
    ensures var log' := log[|log| - 1 := log[|log| - 1] + batch];
            Stored(crc, before, log', refs + more, chks + batch)
  {
    hide IsAt, Extends, Concat;
    var last := |log| - 1;
    var log' := log[last := log[last] + batch];
    ConcatGrowLast(log, batch);
    ExtendsTwice(before, log, log');
    forall j | 0 <= j < |chks + batch| ensures RefersTo(crc, log', (refs + more)[j], (chks + batch)[j]) {
      if j < |chks| {
        RefersStays(crc, log, log', refs[j], chks[j]);
      } else {
        assert IsAt(crc, log', last, |log[last]| + (j - |chks|), more[j - |chks|], batch[j - |chks|]);
      }
    }
    assert Concat(before) + chks + batch == Concat(before) + (chks + batch);
  }

  lemma ConcatPrefix(batches: seq<seq<Chunk>>, k: nat)
    requires k < |batches|
    ensures Concat(batches[..k + 1]) == Concat(batches[..k]) + batches[k]
  {
    assert batches[..k + 1][..k] == batches[..k];
  }

  lemma {:induction false} ConcatHolds(batches: seq<seq<Chunk>>, c: Chunk)
    requires exists k :: 0 <= k < |batches| && c in batches[k]
    ensures c in Concat(batches)
  {
    var k :| 0 <= k < |batches| && c in batches[k];
    if k < |batches| - 1 {
      assert c in batches[..|batches| - 1][k];
      ConcatHolds(batches[..|batches| - 1], c);
    }
  }

  lemma BatchChunks(size: nat, n: nat, chks: seq<Chunk>, batches: seq<seq<Chunk>>)
    requires GoodBatches(size, n, chks, batches)
    ensures batches != [] && Concat(batches) == chks && forall k, c | 0 <= k < |batches| && c in batches[k] :: c in chks
  {
    forall k, c | 0 <= k < |batches| && c in batches[k] ensures c in chks {
      ConcatHolds(batches, c);
    }
  }

  lemma FirstHasRoom(crc: Checksum, size: nat, files: seq<seq<Byte>>, log: seq<seq<Chunk>>, n0: nat, n: nat,
                     chks: seq<Chunk>, batches: seq<seq<Chunk>>)
    requires SegmentsOk(crc, size, files, log) && files != [] && n == |files[|files| - 1]|
    requires n == if n0 == 0 then HEADER_SIZE else n0
    requires GoodBatches(size, n0, chks, batches)
    ensures log != [] && batches != []
    ensures n + TotalSize(batches[0]) <= size || |log[|log| - 1]| + |batches[0]| <= 1 || batches[0] == []
  {
    assert BatchFits(size, n0, 0, batches[0]);
    assert files[|log| - 1] == SegmentBytes(crc, log[|log| - 1]);
    if n <= HEADER_SIZE {
      assert (log[|log| - 1]) == [];
    }
  }

  lemma LaterHasRoom(size: nat, n: nat, chks: seq<Chunk>, batches: seq<seq<Chunk>>, k: nat)
    requires GoodBatches(size, n, chks, batches) && 1 <= k < |batches|
    ensures HEADER_SIZE + TotalSize(batches[k]) <= size || |batches[k]| <= 1
  {
    assert BatchFits(size, n, k, batches[k]);
  }

  lemma ConcatGrowLast(log: seq<seq<Chunk>>, b: seq<Chunk>)
    requires log != []
    ensures var log' := log[|log| - 1 := log[|log| - 1] + b];
            Concat(log') == Concat(log) + b && Extends(log, log')
  {
    var log' := log[|log| - 1 := log[|log| - 1] + b];
    assert log'[..|log| - 1] == log[..|log| - 1];
    assert Concat(log[..|log| - 1]) + (log[|log| - 1] + b) == Concat(log) + b;
  }

  lemma ExtendsTwice(a: seq<seq<Chunk>>, b: seq<seq<Chunk>>, c: seq<seq<Chunk>>)
    requires Extends(a, b) && Extends(b, c)
    ensures Extends(a, c)
  {
  }

  lemma RefersStays(crc: Checksum, log: seq<seq<Chunk>>, log': seq<seq<Chunk>>, ref: UInt64, c: Chunk)
    requires Extends(log, log') && RefersTo(crc, log, ref, c)
    ensures RefersTo(crc, log', ref, c)
  {
    hide IsAt, Extends;
    var k: nat, i: nat :| IsAt(crc, log, k, i, ref, c);
    StaysAt(crc, log, log', k, i, ref, c);
  }

  /** With segments of at most 2^32 bytes every offset fits in a reference. */
  lemma OffsetsAlwaysFit(crc: Checksum, size: nat, files: seq<seq<Byte>>, log: seq<seq<Chunk>>)
    requires SegmentsOk(crc, size, files, log) && size <= TWO32
    ensures OffsetsFit(crc, log)
  {
    hide SegmentBytes, SegmentRecord;
    forall k, i | 0 <= k < |log| && 0 <= i < |log[k]| ensures Position(crc, log[k], i) < TWO32 {
      if |log[k]| <= 1 {
        EmptySegment(crc);
        assert log[k][..0] == [];
      } else {
        RecordIn(crc, log[k], i);
      }
    }
  }

  /** Reader.Chunk gives back every chunk of a WriteChunks call, now and after any later calls. */
  lemma WriterThenReader(crc: Checksum, size: nat, before: seq<seq<Chunk>>, log: seq<seq<Chunk>>, refs: seq<UInt64>,
                         chks: seq<Chunk>, files: seq<seq<Byte>>, later: seq<seq<Chunk>>, j: nat)
    requires Stored(crc, before, log, refs, chks) && Extends(log, later) && SegmentsOk(crc, size, files, later)
    requires size <= TWO32 && |later| <= TWO32
    requires j < |chks| && |chks[j].bytes| < TWO32 && chks[j].encoding == ENC_XOR
    ensures ReaderChunk(crc, files, refs[j]) == Found(chks[j])
  {
    OffsetsAlwaysFit(crc, size, files, later);
    hide RefersTo, OffsetsFit, Written, Extends, ReaderChunk;
    RefersStays(crc, log, later, refs[j], chks[j]);
    ReaderReturnsChunk(crc, files, later, refs[j], chks[j]);
  }

  lemma WrittenSizes(crc: Checksum, files: seq<seq<Byte>>, log: seq<seq<Chunk>>)
    requires Written(crc, files, log)
    ensures |files| == |log|
  {
  }

  lemma RecordSizeIs(crc: Checksum, c: Chunk)
    requires |c.bytes| < TWO32
    ensures |SegmentRecord(crc, c)| <= |c.bytes| + 10
  {
    UvarintSize(|c.bytes|);
  }

  /** The log only grows: no segment is lost, and none loses chunks. */
  ghost predicate Extends(log: seq<seq<Chunk>>, log': seq<seq<Chunk>>) {
    |log| <= |log'| && forall k | 0 <= k < |log| :: log[k] <= log'[k]
  }

  /** References stay good when the log grows. */
  lemma StaysAt(crc: Checksum, log: seq<seq<Chunk>>, log': seq<seq<Chunk>>, k: nat, i: nat, ref: UInt64, c: Chunk)
    requires Extends(log, log') && IsAt(crc, log, k, i, ref, c)
    ensures IsAt(crc, log', k, i, ref, c)
  {
    hide ChunkRef, SegmentBytes;
    assert log'[k][..i] == log[k][..i];
  }

  lemma EmptySegment(crc: Checksum)
    ensures SegmentBytes(crc, []) == SEGMENT_HEADER
  {
  }

  lemma WholePosition(crc: Checksum, cs: seq<Chunk>)
    ensures Position(crc, cs, |cs|) == |SegmentBytes(crc, cs)|
  {
    assert cs[..|cs|] == cs;
  }

  /** Positions do not move when the segment grows. */
  lemma PositionOfPrefix(crc: Checksum, cs: seq<Chunk>, c: Chunk, i: nat)
    requires i <= |cs|
    ensures Position(crc, cs + [c], i) == Position(crc, cs, i)
  {
    assert (cs + [c])[..i] == cs[..i];
  }

  lemma RecordParts(crc: Checksum, c: Chunk, file: seq<Byte>)
    ensures file + UvarintBytes(|c.bytes|) + [c.encoding] + c.bytes + crc([c.encoding] + c.bytes)
            == file + SegmentRecord(crc, c)
    ensures |UvarintBytes(|c.bytes|)| + 1 + |c.bytes| + |crc([c.encoding] + c.bytes)| == |SegmentRecord(crc, c)|
  {
  }
}
