/**
 ChunkDiskMapper and chunkBuffer of pkg/tsdb/chunks/head_chunks.go, proved against the state machine of ChunkStore.
 Every method runs under the source's write mutex as one step. File system calls succeed.
 */
module HeadChunks {
  import opened Bits
  import opened Varint
  import opened ChunkRecord
  import opened ChunkScan
  import opened Keys
  import opened Wrappers
  import Recovery = ChunkRecovery
  import Store = ChunkStore
  import Truncation = ChunkTruncate

  const SHARDS := 128
  const MIN_BUFFER_SIZE := 64 * 1024
  const MAX_BUFFER_SIZE := 8 * 1024 * 1024

  /** chunkBuffer: 128 maps, picked by the reference. */
  class ChunkBuffer {
    var shards: seq<map<UInt64, Chunk>>
    ghost var contents: map<UInt64, Chunk>

    ghost predicate Valid()
      reads this
    {
      && |shards| == SHARDS
      && (forall i, ref | 0 <= i < SHARDS && ref in shards[i] :: ref % SHARDS == i)
      && (forall i, ref | 0 <= i < SHARDS && ref in shards[i] :: ref in contents && contents[ref] == shards[i][ref])
      && (forall ref | ref in contents :: ref in shards[ref % SHARDS])
    }

    constructor ()
      ensures Valid() && contents == map[]
    {
      shards, contents := seq(SHARDS, i => map[]), map[];
    }

    method Put(ref: UInt64, chk: Chunk)
      requires Valid()
      modifies this
      ensures Valid() && contents == old(contents)[ref := chk]
    {
      var shard := ref % SHARDS;
      var held: map<UInt64, Chunk> := shards[shard][ref := chk];
      shards := shards[shard := held];
      contents := contents[ref := chk];
    }

    method Get(ref: UInt64) returns (r: Option<Chunk>)
      requires Valid()
      ensures r == if ref in contents then Some(contents[ref]) else None
    {
      var shard := shards[ref % SHARDS];
      r := if ref in shard then Some(shard[ref]) else None;
    }

    method Clear()
      requires Valid()
      modifies this
      ensures Valid() && contents == map[]
    {
      for i := 0 to SHARDS
        invariant |shards| == SHARDS && forall k | 0 <= k < i :: shards[k] == map[]
      {
        shards := shards[i := map[]];
      }
      contents := map[];
    }
  }

  class ChunkDiskMapper {
    const crc: Checksum
    const writeBufferSize: nat
    const chunkBuffer: ChunkBuffer

    var disk: map<nat, seq<Byte>>
    var mmappedChunkFiles: map<nat, Store.MappedFile>

    var curFile: bool  // a current file is open
    var curFileSequence: nat
    var curFileNumBytes: nat
    var curFileMaxt: Int64
    var buffered: seq<Byte>  // in the bufio.Writer
    var crcInput: seq<Byte>  // what the running checksum has seen
    var fileMaxtSet: bool
    var closed: bool

    ghost var log: map<nat, seq<Entry>>
    ghost var flushed: nat

    ghost function Conf(): Store.Config {
      Store.Config(crc, writeBufferSize)
    }

    ghost function Now(): Store.State
      reads this, chunkBuffer
    {
      Store.State(Store.Store(disk, mmappedChunkFiles, curFile, curFileSequence, curFileNumBytes, curFileMaxt,
                              buffered, chunkBuffer.contents, fileMaxtSet, closed), log, flushed)
    }

    ghost predicate Valid()
      reads this, chunkBuffer
    {
      chunkBuffer.Valid() && (!closed ==> Store.Inv(Conf(), Now()) && |buffered| <= writeBufferSize)
    }

    /** NewChunkDiskMapper, once its checks have passed. */
    constructor (crc: Checksum, writeBufferSize: nat, files: map<nat, seq<Byte>>, ghost known: map<nat, seq<Entry>>)
      requires Recovery.Openable(files) && Recovery.Known(Store.Config(crc, writeBufferSize), files, known)
      ensures Valid() && fresh(chunkBuffer) && Conf() == Store.Config(crc, writeBufferSize)
      ensures Now() == Recovery.Opened(files, known)
    {
      this.crc, this.writeBufferSize := crc, writeBufferSize;
      chunkBuffer := new ChunkBuffer();
      disk := files;
      mmappedChunkFiles := map f | f in files :: Store.MappedFile(|files[f]|, 0);
      curFile, curFileSequence, curFileNumBytes, curFileMaxt := false, 0, 0, 0;
      buffered, crcInput, fileMaxtSet, closed := [], [], false, false;
      log, flushed := known, 0;
      new;
      Recovery.OpenedInv(Conf(), files, known);
    }

    /** One turn of a bufio.Writer's loop over bytes that do not fit: straight to the file, or a full buffer first. */
    method WriteSome(p: seq<Byte>) returns (rest: seq<Byte>)
      requires curFileSequence in disk && |buffered| <= writeBufferSize < |p| + |buffered|
      modifies `disk, `buffered
      ensures disk.Keys == old(disk.Keys) && buffered == []
      ensures forall f | f in disk && f != curFileSequence :: disk[f] == old(disk[f])
      ensures disk[curFileSequence] + rest == old(disk[curFileSequence] + buffered) + p
      ensures |rest| < |p| || (|rest| == |p| && old(buffered) != [])
    {
      if buffered == [] {
        disk := disk[curFileSequence := disk[curFileSequence] + p];
        return [];
      }
      var n := writeBufferSize - |buffered|;
      assert p == p[..n] + p[n..];
      disk := disk[curFileSequence := disk[curFileSequence] + (buffered + p[..n])];
      buffered := [];
      rest := p[n..];
    }

    /** write: a bufio.Writer fills its buffer and flushes it while the bytes do not fit; it skips an empty buffer. */
    method WriteBytes(b: seq<Byte>)
      requires curFileSequence in disk && |buffered| <= writeBufferSize
      modifies `disk, `buffered, `curFileNumBytes
      ensures disk.Keys == old(disk.Keys) && |buffered| <= writeBufferSize
      ensures forall f | f in disk && f != curFileSequence :: disk[f] == old(disk[f])
      ensures disk[curFileSequence] + buffered == old(disk[curFileSequence] + buffered) + b
      ensures curFileNumBytes == old(curFileNumBytes) + |b|
      ensures |b| <= writeBufferSize - |old(buffered)| ==> disk == old(disk) && buffered == old(buffered) + b
    {
      var p := b;
      while |p| > writeBufferSize - |buffered|
        invariant disk.Keys == old(disk.Keys) && |buffered| <= writeBufferSize
                  && curFileNumBytes == old(curFileNumBytes)
        invariant forall f | f in disk && f != curFileSequence :: disk[f] == old(disk[f])
        invariant disk[curFileSequence] + buffered + p == old(disk[curFileSequence] + buffered) + b
        invariant |b| <= writeBufferSize - |old(buffered)| ==> disk == old(disk) && buffered == old(buffered) && p == b
        decreases |p|, |buffered|
      {
        p := WriteSome(p);
      }
      buffered := buffered + p;
      curFileNumBytes := curFileNumBytes + |b|;
    }

    method WriteAndAppendToCrc(b: seq<Byte>)
      requires curFileSequence in disk && |buffered| <= writeBufferSize
      modifies `disk, `buffered, `curFileNumBytes, `crcInput
      ensures disk.Keys == old(disk.Keys) && |buffered| <= writeBufferSize
      ensures forall f | f in disk && f != curFileSequence :: disk[f] == old(disk[f])
      ensures disk[curFileSequence] + buffered == old(disk[curFileSequence] + buffered) + b
      ensures curFileNumBytes == old(curFileNumBytes) + |b| && crcInput == old(crcInput) + b
      ensures |b| <= writeBufferSize - |old(buffered)| ==> disk == old(disk) && buffered == old(buffered) + b
    {
      WriteBytes(b);
      crcInput := crcInput + b;
    }

    /** flushBuffer */
    method FlushBuffer()
      requires chunkBuffer.Valid() && curFile && curFileSequence in disk && curFileSequence in mmappedChunkFiles
      requires curFileSequence in log
      modifies `disk, `buffered, `flushed, chunkBuffer
      ensures chunkBuffer.Valid() && Now() == Store.Flush(old(Now()))
    {
      disk := disk[curFileSequence := disk[curFileSequence] + buffered];
      buffered := [];
      flushed := |log[curFileSequence]|;
      chunkBuffer.Clear();
    }

    /** The number after the largest one in the directory. */
    method NextSequenceFile() returns (n: nat)
      ensures n == Store.NextFile(disk)
    {
      var highest := 0;
      var rest := disk.Keys;
      while rest != {}
        invariant rest <= disk.Keys && (highest == 0 || highest in disk)
        invariant forall f | f in disk && f !in rest :: f <= highest
        decreases |rest|
      {
        var f :| f in rest;
        if f > highest {
          highest := f;
        }
        rest := rest - {f};
      }
      n := highest + 1;
    }

    /** finalizeCurFile, and the recorded maxt of the file that is left. */
    method FinalizeCurFile()
      requires chunkBuffer.Valid() && Store.Wf(Now())
      modifies `disk, `buffered, `flushed, `mmappedChunkFiles, chunkBuffer
      ensures chunkBuffer.Valid() && Now() == Store.Finalize(old(Now()))
    {
      if curFile {
        FlushBuffer();
        mmappedChunkFiles :=
          mmappedChunkFiles[curFileSequence := mmappedChunkFiles[curFileSequence].(maxt := curFileMaxt)];
      }
    }

    /** cutSegmentFile */
    method CreateFile() returns (seqNo: nat)
      modifies `disk, `mmappedChunkFiles, `log
      ensures seqNo == Store.NextFile(old(disk)) && disk == old(disk)[seqNo := HEADER] && log == old(log)[seqNo := []]
      ensures mmappedChunkFiles == old(mmappedChunkFiles)[seqNo := Store.MappedFile(MAX_FILE_SIZE, 0)]
    {
      seqNo := NextSequenceFile();
      disk := disk[seqNo := HEADER];
      mmappedChunkFiles := mmappedChunkFiles[seqNo := Store.MappedFile(MAX_FILE_SIZE, 0)];
      log := log[seqNo := []];
    }

    /** The fields of the new current file. */
    method OpenNextFile()
      requires chunkBuffer.Valid() && buffered == []
      modifies this
      ensures chunkBuffer.Valid() && Now() == Store.OpenNext(old(Now()))
    {
      hide ChunkBuffer.Valid, Store.NextFile;
      var seqNo := CreateFile();
      curFileNumBytes := HEADER_SIZE;
      curFile, curFileSequence := true, seqNo;
      buffered := [];
      curFileMaxt := 0;
      flushed := 0;
    }

    /** cut */
    method CutNewFile()
      requires Valid() && !closed
      modifies this, chunkBuffer
      ensures Valid() && !closed && Store.Wf(old(Now())) && Now() == Store.Cut(old(Now()))
    {
      hide Store.Inv, Store.Finalize, Store.OpenNext;
      Store.CutGrows(Conf(), Now());
      Store.CutKeeps(Conf(), Now());
      Store.FinalizeKeeps(Conf(), Now());
      FinalizeCurFile();
      OpenNextFile();
    }

    predicate ShouldCutNewFile(chunkSize: nat)
      reads this
    {
      curFileNumBytes == 0 || curFileNumBytes + chunkSize + MAX_META_SIZE > MAX_FILE_SIZE
    }

    /** The three writes of a record: its head, the chunk, and the checksum of both. */
    method PutBytes(e: Entry)
      requires curFileSequence in disk && |buffered| <= writeBufferSize
      modifies `disk, `buffered, `curFileNumBytes, `crcInput
      ensures disk.Keys == old(disk.Keys) && |buffered| <= writeBufferSize
      ensures forall f | f in disk && f != curFileSequence :: disk[f] == old(disk[f])
      ensures disk[curFileSequence] + buffered == old(disk[curFileSequence] + buffered) + Record(crc, e)
      ensures curFileNumBytes == old(curFileNumBytes) + RecordSize(e)
      ensures RecordSize(e) <= writeBufferSize - |old(buffered)| ==>
                disk == old(disk) && buffered == old(buffered) + Record(crc, e)
    {
      hide Meta, Record, RecordSize;
      crcInput := [];
      var byteBuf := MakeMeta(e);
      ghost var was, buffer := disk[curFileSequence] + buffered, buffered;
      RecordParts(crc, e, was);
      RecordParts(crc, e, buffer);
      WriteAndAppendToCrc(byteBuf);
      WriteAndAppendToCrc(e.chunk.bytes);
      assert crcInput == byteBuf + e.chunk.bytes;
      WriteBytes(crc(crcInput));
    }

    /** The head of a record, put together field by field. */
    method MakeMeta(e: Entry) returns (byteBuf: seq<Byte>)
      ensures byteBuf == Meta(e)
    {
      hide UvarintBytes, ToBigEndian;
      byteBuf := ToBigEndian(e.series, 8);
      byteBuf := byteBuf + ToBigEndian(ToUInt64(e.mint), 8);
      byteBuf := byteBuf + ToBigEndian(ToUInt64(e.maxt), 8);
      byteBuf := byteBuf + [e.chunk.encoding];
      byteBuf := byteBuf + UvarintBytes(|e.chunk.bytes|);
    }

    /** What is remembered of a record. */
    method Remember(ref: UInt64, e: Entry)
      requires chunkBuffer.Valid() && curFileSequence in log
      modifies `curFileMaxt, `log, chunkBuffer
      ensures chunkBuffer.Valid() && chunkBuffer.contents == old(chunkBuffer.contents)[ref := e.chunk]
      ensures curFileMaxt == if e.maxt > old(curFileMaxt) then e.maxt else old(curFileMaxt)
      ensures log == old(log)[curFileSequence := old(log)[curFileSequence] + [e]]
    {
      if e.maxt > curFileMaxt {
        curFileMaxt := e.maxt;
      }
      chunkBuffer.Put(ref, e.chunk);
      log := log[curFileSequence := log[curFileSequence] + [e]];
    }

    /** The record, and what is remembered of it. */
    method PutRecord(e: Entry) returns (ref: UInt64)
      requires chunkBuffer.Valid() && Store.Wf(Now()) && curFile && |buffered| <= writeBufferSize
      modifies this, chunkBuffer
      ensures chunkBuffer.Valid() && |buffered| <= writeBufferSize
      ensures curFileSequence == old(curFileSequence) && curFileSequence in disk && disk.Keys == old(disk.Keys)
      ensures forall f | f in disk && f != curFileSequence :: disk[f] == old(disk[f])
      ensures disk[curFileSequence] + buffered == old(disk[curFileSequence] + buffered) + Record(crc, e)
      ensures Now().(store := Now().store.(disk := old(disk), buffer := old(buffered) + Record(crc, e)))
              == Store.Append(Conf(), old(Now()), e)
      ensures RecordSize(e) <= writeBufferSize - |old(buffered)| ==> Now() == Store.Append(Conf(), old(Now()), e)
      ensures ref == ChunkRef(old(curFileSequence), old(curFileNumBytes))
    {
      hide Record, RecordSize, ChunkRef;
      ref := ChunkRef(curFileSequence, curFileNumBytes);
      PutBytes(e);
      Remember(ref, e);
    }

    /** The first half of WriteChunk: a new file and a flush, where they are needed. */
    method MakeRoom(e: Entry)
      requires Valid() && !closed && |e.chunk.bytes| < TWO32
      modifies this, chunkBuffer
      ensures Valid() && !closed && curFile && Store.Wf(Now()) && Store.Wf(old(Now()))
      ensures Now() == Store.Ready(Conf(), old(Now()), e)
      ensures |e.chunk.bytes| + MAX_META_SIZE < writeBufferSize ==> RecordSize(e) <= writeBufferSize - |buffered|
    {
      hide Store.Inv, Store.Cut, RecordSize;
      ghost var start := Now();
      Store.CutGrows(Conf(), start);
      Store.ReadyKeeps(Conf(), start, e);
      Store.MetaBound(e);
      if ShouldCutNewFile(|e.chunk.bytes|) {
        CutNewFile();
        Store.CutIsOpen(start);
      } else {
        Store.CurrentHasHeader(Conf(), start);
      }
      if |e.chunk.bytes| + MAX_META_SIZE < writeBufferSize
         && writeBufferSize - |buffered| < MAX_META_SIZE + |e.chunk.bytes| {
        FlushBuffer();
      }
    }

    /** The second half: the record, flushed at once if it may be larger than the write buffer. */
    method PutDown(e: Entry) returns (ref: UInt64)
      requires chunkBuffer.Valid() && Store.Wf(Now()) && curFile && |buffered| <= writeBufferSize
      requires |e.chunk.bytes| + MAX_META_SIZE < writeBufferSize ==> RecordSize(e) <= writeBufferSize - |buffered|
      modifies this, chunkBuffer
      ensures chunkBuffer.Valid() && |buffered| <= writeBufferSize
      ensures Now() == var st := Store.Append(Conf(), old(Now()), e);
                       if Store.FlushAfter(Conf(), e) then Store.Flush(st) else st
      ensures ref == ChunkRef(old(curFileSequence), old(curFileNumBytes))
    {
      hide Record, RecordSize, ChunkRef;
      ref := PutRecord(e);
      if |e.chunk.bytes| + MAX_META_SIZE >= writeBufferSize {
        FlushBuffer();
        assert disk[curFileSequence] == old(disk[curFileSequence] + buffered) + Record(crc, e)
               == old(disk[curFileSequence]) + (old(buffered) + Record(crc, e));
        assert disk.Keys == old(disk).Keys;
        assert disk == old(disk)[curFileSequence := old(disk[curFileSequence]) + (old(buffered) + Record(crc, e))];
      }
    }

    /** WriteChunk: the reference of the new chunk, or an error once the mapper is closed. */
    method WriteChunk(e: Entry) returns (r: Option<UInt64>)
      requires Valid() && |e.chunk.bytes| < TWO32
      modifies this, chunkBuffer
      ensures Valid() && closed == old(closed)
      ensures old(closed) ==> r == None && Now() == old(Now())
      ensures !old(closed) ==>
                && Store.Wf(old(Now()))
                && Now() == Store.Write(Conf(), old(Now()), e)
                && r == Some(Store.WriteRef(Conf(), old(Now()), e))
                && Store.Holds(Conf(), Now(), r.value, e)
    {
      if closed {
        return None;
      }
      Store.WriteKeeps(Conf(), Now(), e);
      hide Store.Inv, Store.Append, Store.Ready, Store.Flush, Store.Holds, RecordSize, ChunkRef;
      MakeRoom(e);
      var ref := PutDown(e);
      r := Some(ref);
    }

    /** Chunk: the chunk buffer first if the reference is in the current file, then the mapping. */
    method Fetch(ref: UInt64) returns (r: Lookup)
      requires Valid()
      ensures r == Store.Fetch(Conf(), Now().store, ref)
      ensures !closed && Highest(disk.Keys) < TWO32 ==>
                forall e | Store.Holds(Conf(), Now(), ref, e) && Store.Fits(e) && e.chunk.encoding == ENC_XOR ::
                  r == Found(e.chunk)
      ensures r.Found? ==> !closed && Store.Authentic(Conf(), Now().store, ref, r.chunk)
    {
      if closed {
        return MapperClosed;
      }
      ghost var answer := Store.Fetch(Conf(), Now().store, ref);
      if answer.Found? {
        Store.FetchVerified(Conf(), Now().store, ref);
      }
      hide Store.Authentic;
      hide Store.Inv, Store.Holds, Store.Fits, ReadChunk, RefFile, RefOffset, Mapped;
      forall e | Highest(disk.Keys) < TWO32 && Store.Holds(Conf(), Now(), ref, e) && Store.Fits(e)
                 && e.chunk.encoding == ENC_XOR
        ensures Store.Fetch(Conf(), Now().store, ref) == Found(e.chunk)
      {
        Store.ReadYourWrites(Conf(), Now(), ref, e);
      }
      var sgmIndex := RefFile(ref);
      if sgmIndex == curFileSequence {
        var chunk := chunkBuffer.Get(ref);
        if chunk.Some? {
          return Found(chunk.value);
        }
      }
      if sgmIndex !in mmappedChunkFiles || sgmIndex !in disk {
        return Corruption;
      }
      r := ReadChunk(crc, Mapped(disk[sgmIndex], mmappedChunkFiles[sgmIndex].size), RefOffset(ref));
    }

    /** deleteFiles: the mappings first, then the files, one by one. */
    method DeleteFiles(removed: seq<nat>)
      requires Truncation.NoGaps(disk.Keys, removed)
      modifies `disk, `mmappedChunkFiles, `log
      ensures Now() == Store.Delete(old(Now()), ToSet(removed))
    {
      UnmapFiles(removed);
      RemoveFiles(removed);
    }

    /** The first loop: the files can no longer be read. */
    method UnmapFiles(removed: seq<nat>)
      modifies `mmappedChunkFiles
      ensures mmappedChunkFiles == old(mmappedChunkFiles) - ToSet(removed)
    {
      assert removed[..|removed|] == removed;
      for i := 0 to |removed|
        invariant mmappedChunkFiles == old(mmappedChunkFiles) - ToSet(removed[..i])
      {
        mmappedChunkFiles := mmappedChunkFiles - {removed[i]};
        assert removed[..i + 1] == removed[..i] + [removed[i]];
      }
    }

    /** The second loop: one by one they go from the disk, and the numbers of the others never have a gap. */
    method RemoveFiles(removed: seq<nat>)
      requires Truncation.NoGaps(disk.Keys, removed)
      modifies `disk, `log
      ensures disk == old(disk) - ToSet(removed) && log == old(log) - ToSet(removed)
    {
      hide Contiguous;
      assert removed[..|removed|] == removed;
      for i := 0 to |removed|
        invariant disk == old(disk) - ToSet(removed[..i]) && log == old(log) - ToSet(removed[..i])
        invariant Contiguous(disk.Keys)
      {
        assert removed[..i + 1] == removed[..i] + [removed[i]];
        assert Contiguous(old(disk.Keys) - ToSet(removed[..i + 1]));
        disk := disk - {removed[i]};
        log := log - {removed[i]};
        assert disk.Keys == old(disk.Keys) - ToSet(removed[..i + 1]);
      }
    }

    /** Truncate */
    method Truncate(mint: Int64) returns (ok: bool)
      requires Valid() && !closed
      modifies this, chunkBuffer
      ensures Valid() && !closed && ok == old(fileMaxtSet)
      ensures Store.Wf(old(Now())) && Now() == Store.Truncate(old(Now()), mint)
      ensures Truncation.Retains(old(Now()), Now(), mint)
    {
      ghost var start := Now();
      Truncation.TruncateFacts(Conf(), start, mint);
      hide Truncation.NoGaps, Store.Inv, Truncation.Retains, Store.Delete;
      hide Store.Removed, Store.Settled, Store.Wf, Contiguous, ToSet, Highest;
      if !fileMaxtSet {
        return false;
      }
      var removed := FilesBelow(mint);
      Settle();
      DeleteFiles(removed);
      ok := true;
    }

    /** A new file, if the current one holds chunks. */
    method Settle()
      requires Valid() && !closed && Store.Wf(Now())
      modifies this, chunkBuffer
      ensures Valid() && !closed && Now() == Store.Settled(old(Now()))
    {
      hide Store.Inv, Store.Cut;
      if curFileNumBytes > HEADER_SIZE {
        CutNewFile();
      }
    }

    /** The files Truncate removes: from the first on, up to the current one or one that reaches mint. */
    method FilesBelow(mint: Int64) returns (removed: seq<nat>)
      ensures removed == Store.Removed(Now().store, mint)
    {
      hide Ascending, Store.Removable;
      var indices := Ascending(mmappedChunkFiles.Keys);
      ghost var maxts := Store.Maxts(mmappedChunkFiles);
      ghost var all := Store.Removed(Now().store, mint);
      removed := [];
      for i := 0 to |indices|
        invariant all == removed + Store.Removable(indices[i..], curFileSequence, maxts, mint)
      {
        var seqNo := indices[i];
        assert seqNo in indices;
        Truncation.RemovableStep(indices, i, curFileSequence, maxts, mint);
        if seqNo == curFileSequence || mmappedChunkFiles[seqNo].maxt >= mint {
          return;
        }
        removed := removed + [seqNo];
      }
      Truncation.NothingRemovable(indices, curFileSequence, maxts, mint);
    }

    /** One turn of the inner loop of IterateAllChunks. */
    method ReadTurn(segID: nat, idx: nat, tail: seq<Byte>) returns (t: Turn)
      ensures t == ScanTurn(crc, segID, idx, tail)
    {
      hide Uvarint, ChunkRef, BigEndian, AllZero, U64, ToInt64;
      if tail == [] {
        return End;
      }
      if |tail| < MAX_META_SIZE {
        return if AllZero(tail) then End else Corrupt;
      }
      var series, mint, maxt := Series(tail), Mint(tail), Maxt(tail);
      if series == 0 && mint == 0 && maxt == 0 {
        return End;
      }
      var (length, n) := Uvarint(tail[25..30]);
      var samples := BigEndian(tail[25 + n..27 + n]);
      var dataEnd := 25 + n + length;
      if dataEnd + CRC_SIZE > |tail| {
        return Corrupt;
      }
      var sum := tail[dataEnd..dataEnd + CRC_SIZE];
      if crc(tail[..dataEnd]) != sum {
        return Corrupt;
      }
      t := Turn.Chunk(Report(series, ChunkRef(segID, idx), mint, maxt, samples), dataEnd + CRC_SIZE);
    }

    /** The loop of IterateAllChunks over one file; view is its mapping up to fileEnd. */
    method ScanOneFile(segID: nat, view: seq<Byte>) returns (reports: seq<Report>, ok: bool)
      requires segID in mmappedChunkFiles
      modifies `mmappedChunkFiles
      ensures Scan(reports, ok) == ScanFile(crc, segID, view)
      ensures mmappedChunkFiles == old(mmappedChunkFiles)[segID :=
                old(mmappedChunkFiles[segID]).(maxt := Raise(old(mmappedChunkFiles[segID].maxt), reports))]
    {
      hide ScanTurn, ScanTail, Raise, ChunkDiskMapper.Now, ChunkDiskMapper.Valid;
      RaiseNothing(mmappedChunkFiles[segID].maxt);
      reports := [];
      if |view| < HEADER_SIZE {
        return [], false;
      }
      ghost var goal := ScanFile(crc, segID, view);
      ghost var start := mmappedChunkFiles[segID];
      var idx := HEADER_SIZE;
      var more := true;
      while more
        invariant HEADER_SIZE <= idx <= |view|
        invariant more ==> var rest := ScanTail(crc, segID, idx, view[idx..]);
                  goal == Scan(reports + rest.reports, rest.ok)
        invariant !more ==> goal == Scan(reports, true)
        invariant mmappedChunkFiles == old(mmappedChunkFiles)[segID := start.(maxt := Raise(start.maxt, reports))]
        decreases more, |view| - idx
      {
        ScanTailStep(crc, segID, idx, view[idx..], reports);
        var t := ReadTurn(segID, idx, view[idx..]);
        match t
        case End => more := false;
        case Corrupt => return reports, false;
        case Chunk(report, size) =>
          if report.maxt > mmappedChunkFiles[segID].maxt {
            mmappedChunkFiles := mmappedChunkFiles[segID := mmappedChunkFiles[segID].(maxt := report.maxt)];
          }
          RaiseAppend(start.maxt, reports, report);
          reports := reports + [report];
          assert view[idx..][size..] == view[idx + size..];
          idx := idx + size;
      }
      ok := true;
    }

    /** IterateAllChunks; the reports are what the callback is given. The maxts count as set whatever the outcome. */
    method IterateAllChunks() returns (reports: seq<Report>, ok: bool)
      requires Valid() && !closed && curFileNumBytes <= MAX_FILE_SIZE
      modifies `mmappedChunkFiles, `fileMaxtSet
      ensures Valid() && fileMaxtSet && old(mmappedChunkFiles.Keys == disk.Keys)
      ensures var o := Recovery.IterateOutcome(Conf(), old(Now()).store); reports == o.reports && ok == o.ok
      ensures Now() == Recovery.Iterate(Conf(), old(Now()))
    {
      hide Store.Inv, Recovery.WithMaxts, Recovery.IterateOutcome;
      Recovery.IterateKeeps(Conf(), Now());
      reports, ok := ScanFiles();
      fileMaxtSet := true;
    }

    /** The loop over the files in ascending order. */
    method ScanFiles() returns (reports: seq<Report>, ok: bool)
      requires mmappedChunkFiles.Keys == disk.Keys
      modifies `mmappedChunkFiles
      ensures var o := Recovery.IterateOutcome(Conf(), old(Now()).store);
              && reports == o.reports && ok == o.ok && o.maxts.Keys == old(mmappedChunkFiles.Keys)
              && mmappedChunkFiles == Recovery.WithMaxts(old(mmappedChunkFiles), o.maxts)
    {
      hide ScanFile, Ascending, Raise, Mapped, Recovery.WithMaxts, Recovery.Progress, Recovery.IterateOutcome;
      reports := [];
      ghost var start := Now().store;
      var segIDs := Ascending(mmappedChunkFiles.Keys);
      Recovery.ProgressStart(Conf(), start);
      while segIDs != []
        invariant Recovery.Progress(Conf(), start, mmappedChunkFiles, segIDs, reports)
        decreases |segIDs|
      {
        var segID := segIDs[0];
        Recovery.ProgressFile(Conf(), start, mmappedChunkFiles, segIDs, reports);
        var fileEnd := if segID == curFileSequence then curFileNumBytes else mmappedChunkFiles[segID].size;
        ghost var before := mmappedChunkFiles;
        var found, fine := ScanOneFile(segID, Mapped(disk[segID], fileEnd));
        Recovery.ProgressStep(Conf(), start, before, segIDs, reports, found, fine);
        reports := reports + found;
        if !fine {
          return reports, false;
        }
        segIDs := segIDs[1..];
      }
      Recovery.ProgressEnd(Conf(), start, mmappedChunkFiles, reports);
      ok := true;
    }

    method FlushIfOpen()
      requires chunkBuffer.Valid() && Store.Wf(Now())
      modifies `disk, `buffered, `flushed, chunkBuffer
      ensures chunkBuffer.Valid() && Now() == Recovery.Closing(old(Now()))
    {
      if curFile {
        FlushBuffer();
      }
    }

    /** Close: what is still buffered is flushed; afterwards every call fails. */
    method Close()
      requires Valid()
      modifies this, chunkBuffer
      ensures Valid() && closed && (old(closed) ==> disk == old(disk))
      ensures !old(closed) ==>
                && Store.Wf(old(Now()))
                && disk == Recovery.Closing(old(Now())).store.disk && mmappedChunkFiles == map[]
                && Recovery.Known(Conf(), disk, old(log)) && Recovery.Openable(disk) && Recovery.Repair(disk) == disk
    {
      if closed {
        return;
      }
      hide Store.Inv, Recovery.Closing, Recovery.Known, Recovery.Openable, Recovery.Repair;
      Recovery.ClosedDirectory(Conf(), Now());
      FlushIfOpen();
      closed := true;
      mmappedChunkFiles := map[];
    }
  }

  lemma RecordParts(crc: Checksum, e: Entry, before: seq<Byte>)
    ensures before + Meta(e) + e.chunk.bytes + crc(Meta(e) + e.chunk.bytes) == before + Record(crc, e)
    ensures |Meta(e)| + |e.chunk.bytes| + |crc(Meta(e) + e.chunk.bytes)| == RecordSize(e)
  {
    hide Meta;
  }

  /** openMMapFiles: repairs the directory and makes the checks; null stands for an error. */
  method NewChunkDiskMapper(crc: Checksum, writeBufferSize: nat, files: map<nat, seq<Byte>>,
                            ghost known: map<nat, seq<Entry>>)
    returns (m: ChunkDiskMapper?)
    requires Recovery.Known(Store.Config(crc, writeBufferSize), Recovery.Repair(files), known)
    ensures m != null <==> && 65_536 <= writeBufferSize <= 8_388_608 && writeBufferSize % 1024 == 0
                           && Recovery.Openable(Recovery.Repair(files))
    ensures m != null ==> fresh(m) && fresh(m.chunkBuffer) && m.Valid()
                          && m.Conf() == Store.Config(crc, writeBufferSize)
                          && m.Now() == Recovery.Opened(Recovery.Repair(files), known)
  {
    if !(MIN_BUFFER_SIZE <= writeBufferSize <= MAX_BUFFER_SIZE) || writeBufferSize % 1024 != 0 {
      return null;
    }
    var kept := files;
    var lastFile := Highest(files.Keys);
    if lastFile > 0 && files[lastFile] == [] {
      kept := files - {lastFile};
    }
    var contiguous := CheckGaps(kept.Keys);
    if !contiguous {
      return null;
    }
    var fine := CheckHeaders(kept);
    if !fine {
      return null;
    }
    m := new ChunkDiskMapper(crc, writeBufferSize, kept, known);
  }

  /** The loop of openMMapFiles that looks for a missing number. */
  method CheckGaps(keys: set<nat>) returns (ok: bool)
    ensures ok <==> Contiguous(keys)
  {
    hide Ascending, Contiguous;
    var indices := Ascending(keys);
    var next := 1;
    while next < |indices|
      invariant next >= 1 && forall k | 1 <= k < next && k < |indices| :: indices[k] == indices[k - 1] + 1
    {
      if indices[next] != indices[next - 1] + 1 {
        GapFound(keys, next);
        return false;
      }
      next := next + 1;
    }
    NoGap(keys);
    ok := true;
  }

  /** The loop of openMMapFiles that checks size, magic number and version. */
  method CheckHeaders(files: map<nat, seq<Byte>>) returns (ok: bool)
    ensures ok <==> forall f | f in files :: Store.HeaderOk(files[f])
  {
    hide Store.HeaderOk;
    var rest := files.Keys;
    while rest != {}
      invariant rest <= files.Keys && forall f | f in files && f !in rest :: Store.HeaderOk(files[f])
      decreases |rest|
    {
      var f :| f in rest;
      if !Store.HeaderOk(files[f]) {
        return false;
      }
      rest := rest - {f};
    }
    ok := true;
  }

  lemma GapFound(keys: set<nat>, i: nat)
    requires 1 <= i < |Ascending(keys)| && Ascending(keys)[i] != Ascending(keys)[i - 1] + 1
    ensures !Contiguous(keys)
  {
    var a := Ascending(keys);
    var missing := a[i - 1] + 1;
    assert a[i - 1] in a && a[i] in a;
    forall j | 0 <= j < |a| ensures a[j] != missing {
    }
    assert a[i - 1] in keys && a[i] in keys && a[i - 1] <= missing <= a[i] && missing !in keys;
  }

  lemma {:induction false} Steps(a: seq<nat>, i: nat, j: nat)
    requires i <= j < |a| && forall k | 1 <= k < |a| :: a[k] == a[k - 1] + 1
    ensures a[j] == a[i] + (j - i)
  {
    if i < j {
      Steps(a, i, j - 1);
    }
  }

  lemma NoGap(keys: set<nat>)
    requires forall k | 1 <= k < |Ascending(keys)| :: Ascending(keys)[k] == Ascending(keys)[k - 1] + 1
    ensures Contiguous(keys)
  {
    var a := Ascending(keys);
    forall x, y, z | x in keys && z in keys && x <= y <= z ensures y in keys {
      assert x in a && z in a;
      Between(a, x, y, z);
    }
  }

  lemma Between(a: seq<nat>, x: nat, y: nat, z: nat)
    requires (forall k | 1 <= k < |a| :: a[k] == a[k - 1] + 1) && x in a && z in a && x <= y <= z
    ensures y in a
  {
    var i :| 0 <= i < |a| && a[i] == x;
    var j :| 0 <= j < |a| && a[j] == z;
    if i <= j {
      Steps(a, i, j);
      Steps(a, i, i + (y - x));
      assert a[i + (y - x)] in a;
    } else {
      Steps(a, j, i);
    }
  }
}
