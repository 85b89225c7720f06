# Verified models of the gateway

This project models the parts of an industrial gateway that move data: the Gorilla/XOR chunk codec of its time series
store, the head chunk files and segments that chunks are kept in, the look-back ring buffer of its queries, the Modbus
read and write path from packing to polling, and the bookkeeping of its device manager. `dafny verify dfyconfig.toml`
checks everything.

| modules | what they are about |
|---|---|
| Bits, Varint, Sequences, Keys, Wrappers | machine words as numbers and bit lists, varints, concatenation, ordered sets |
| BitStream, BitStreamReader | the bit writer and the buffered bit reader |
| XorCodec, XorChunk, XorRoundTrip | the sample codec as functions, the chunk, appender and iterator objects, and the round trip |
| ChunkRecord, ChunkScan, ChunkStore, ChunkTruncate, ChunkRecovery | the head chunk store: record format, recovery scan, state machine, truncation, runs |
| HeadChunks | ChunkDiskMapper and chunkBuffer as objects, proved against the state machine |
| Segments, SegmentWriter | segment files, their reader, and the batching writer |
| SampleRing, RingStand, RingOrder, BufferedIterator | the growing ring buffer, what any number of adds makes of it, when it is in time order, and the iterator that fills it |
| Crc16, ByteLayout | the CRC tables and the byte layouts |
| ModbusSlave | a device written from sections 6.1 to 6.6 and 6.12 of the MODBUS Application Protocol Specification V1.1b3 |
| ModbusFrame, ModbusPacking, ModbusRead, ModbusBroker, ModbusWrite | requests, greedy packing, answers, batching, writes |
| ModbusMeaning | what the value of a variable must be, said of the device's memory alone |
| ModbusPool, ModbusPoll | the messenger pool and a whole poll as a state machine over all interleavings |
| ModbusDevice | all frames of a device, from NewBroker to the result of a concurrent poll |
| DeviceManager | which devices are collected and which are watched |

Objects whose methods update fields are classes here too; each method is proved against a function of the old state, and
the lemmas say what those functions mean. Floats are 64-bit patterns. The Castagnoli CRC-32 of the chunk files is a
parameter, as are the answers of devices and the scaling of rates.

## What the proofs show about the code

- `readBits` is right only while enough bits are left. On a short stream it invents zero bits instead of reporting the
  end of file, except when its buffer was empty or the stream used up (BStreamReader.ReadBits).
- A chunk rebuilt from its bytes has forgotten how many bits of the last byte are unused. Appending to it is read back
  if and only if there were none or the sample is the one the codec would predict (AppendAfterRestoring). After one sample
  the unused bits are a whole byte or none, and the predicted sample is the first one again.
- A 65536th sample wraps the uint16 count of a chunk to 0 (WriteAndRead says exactly what is read back).
- The recovery scan misses a last record shorter than 34 bytes and takes an entry with series reference, mint and maxt
  all zero for the end of the file; apart from that it reports exactly what was flushed (ScanReportsLog, CrashRecovery).
- Truncate keeps every chunk that reaches its mint, for every mint, if and only if for every chunk its own file or an
  earlier one is the current file or was recorded to reach as far as the chunk (TruncateSafeIff). A scan records what it
  reports before its first error, and marks the maxts as set even after one, so truncating after a failed scan is safe
  exactly under the condition of TruncateSafeAfterScan; LostAfterFailedScan is a directory where it is not. A file
  numbered 0, which the code never creates, makes the scan of a reopened directory fail (FileZeroFails). A store that began
  empty records exactly what its chunks reach, and Truncate then removes exactly the files up to which no chunk reaches a
  positive mint and none is the current one (RunRecords, RunTruncates).
- A chunk whose record does not fit in 128 MiB is written but cannot be read (ReadableIff) until the directory is closed
  and reopened, which maps the whole file (ReadableAfterReopening).
- An add to the sample ring that both grows it and forgets samples is right only if it forgets past the zeros of the new
  buffer (AddIff). Otherwise it loses samples of the window, or leaves the ring in disorder if the bound is not positive.
  A full ring of 16 slots, as the code makes it, is enough (SixteenSlots). For the iterator this means: the ring holds the
  whole look-back window in every series without 16 consecutive samples within delta (SparseCovers), and for every series
  in time order exactly when the ring is in order, has forgotten all that it held while it was in disorder, and is long
  enough (KeepsIff, Standing). A ring in disorder holds no window and is out of time order, and so it remains until what it
  held then is forgotten (DisorderLoses, OrderedIff). After the times 1 to 18 with a delta of 15 the ring holds one sample of
  fifteen (SeekDense).
- A frame is as long as its last variable needs, and its numbers are read right from every memory if and only if no
  variable ends after the last one (FrameRightIff). Otherwise parsing panics over TCP, and with serial framing it panics or
  takes CRC bytes for a register (FrameReadableIff). An INT64 at address 0 and an INT16 at address 1 are enough
  (LastEndsFirst). With a position the first frame may ask for nothing
  (FirstFrameEmpty), which a standard device refuses.
- A write to a variable of function code 2 or 4 goes to the coil or holding register of the same number (WriteEffect).
- A heartbeat tick ends at the first watched device that still fails (Tick). A result that arrives after Stop makes the
  next Start do nothing (LateResult). A status command for a device deleted in the meantime panics (SwitchStatus).

## Model

| member | source | states |
|---|---|---|
| BitStream.BStream.WriteBit | pkg/tsdb/chunkenc/bstream.go:66-79 | appends exactly one bit to the bit list the stream stands for, and keeps the unused bits of the last byte zero |
| BitStream.BStream.WriteByte | pkg/tsdb/chunkenc/bstream.go:81-95 | appends exactly the eight bits of the byte, wherever in a byte the stream stands |
| BitStream.BStream.WriteBits | pkg/tsdb/chunkenc/bstream.go:97-111 | appends exactly the nbits low bits of the word, for every nbits up to 64 |
| BitStream.PutByte | pkg/tsdb/chunkenc/bstream.go:87-94 | a byte split over two stream bytes adds its eight bits in order |
| BitStreamReader.BStreamReader.ReadBit | pkg/tsdb/chunkenc/bstream.go:127-135 | takes the first pending bit; end of file if and only if nothing is pending |
| BitStreamReader.BStreamReader.ReadBitFast | pkg/tsdb/chunkenc/bstream.go:141-149 | takes the first pending bit, or fails and changes nothing when the buffer is empty |
| BitStreamReader.BStreamReader.ReadBits | pkg/tsdb/chunkenc/bstream.go:151-177 | takes the next nbits bits when that many are left; on a short stream, exactly when end of file is reported and which value comes instead |
| BitStreamReader.BStreamReader.ReadBitsFast | pkg/tsdb/chunkenc/bstream.go:183-192 | takes the next nbits bits from the buffer, or fails and changes nothing |
| BitStreamReader.BStreamReader.ReadByte | pkg/tsdb/chunkenc/bstream.go:194-200 | takes the next eight bits as a byte; end of file if and only if fewer are left |
| BitStreamReader.BStreamReader.LoadNextBuffer | pkg/tsdb/chunkenc/bstream.go:205-240 | refills the buffer with the next bytes of the stream, losing none |
| BitStreamReader.JoinParts | pkg/tsdb/chunkenc/bstream.go:163-176 | the bits left in the old buffer and those of the refilled one are consecutive bits of the stream |
| BitStreamReader.OrNextByte | pkg/tsdb/chunkenc/bstream.go:226-239 | or-ing bytes into their places builds the word that is read |
| XorCodec.UvarintRoundTrip | pkg/tsdb/chunkenc/xor.go:157-166 | a number written as a varint at any bit position is read back, with what follows untouched |
| XorCodec.ZigZagRoundTrip | pkg/tsdb/chunkenc/xor.go:155-159 | the signed form of varints gives every int64 back |
| XorCodec.DodRoundTrip | pkg/tsdb/chunkenc/xor.go:174-192 | every int64 delta of delta is read back from its prefix and 0, 14, 17, 20 or 64 bits |
| XorCodec.DodSign | pkg/tsdb/chunkenc/xor.go:343-376 | the sign is restored exactly for the range the prefix stands for |
| XorCodec.DodForms | pkg/tsdb/chunkenc/xor.go:174-192 | the five forms a delta of delta is written in: one bit for 0, else the shortest of 14, 17, 20 and 64 bits whose range holds it, behind a prefix |
| XorCodec.WindowRoundTrip | pkg/tsdb/chunkenc/xor.go:421-452 | the significant bits of a difference, written for any window that covers them, restore the value |
| XorCodec.ValueBitsAre | pkg/tsdb/chunkenc/xor.go:207-240 | the three forms a value is written in: one bit if it is unchanged, the old window if that covers the difference, else a new one as narrow as five bits for its leading zeros allow |
| XorCodec.LeadingExact | pkg/tsdb/chunkenc/xor.go:214-215 | the leading zeros are counted up to the highest bit that is set |
| XorCodec.TrailingExact | pkg/tsdb/chunkenc/xor.go:215 | the trailing zeros are counted up to the lowest bit that is set |
| XorCodec.ValueRoundTrip | pkg/tsdb/chunkenc/xor.go:207-240 | a value is read back whatever the window, and appender and iterator agree on the window afterwards |
| XorCodec.DeltaRoundTrip | pkg/tsdb/chunkenc/xor.go:160-173 | timestamps survive wrapping differences and differences of differences |
| XorCodec.SampleRoundTrip | pkg/tsdb/chunkenc/xor.go:150-201 | one appended sample is read back and keeps appender and iterator in lockstep |
| XorCodec.SamplesExtend | pkg/tsdb/chunkenc/xor.go:293-386 | bits added at the end never change the samples before them |
| XorCodec.SamplesSplit | pkg/tsdb/chunkenc/xor.go:293-386 | reading m samples and then n more is reading m + n |
| XorCodec.StartIrrelevant | pkg/tsdb/chunkenc/xor.go:278-291 | the time and value an iterator starts from do not matter once a sample is read |
| XorChunk.ReadUvarint | pkg/tsdb/chunkenc/xor.go:297-303 | reads a varint from a bit reader, and fails if and only if the bits left do not begin with one |
| XorChunk.XorIterator.Next | pkg/tsdb/chunkenc/xor.go:293-386 | performs one step of the codec, or reports an error, and counts exactly the samples it returns |
| XorChunk.XorIterator.Seek | pkg/tsdb/chunkenc/xor.go:257-268 | stops at the first sample at or after t from the current one on, and fails if and only if there is none |
| XorChunk.XorIterator.Reset | pkg/tsdb/chunkenc/xor.go:278-291 | is ready for the new data: count from the header, nothing read |
| XorChunk.XorIterator.ReadDod | pkg/tsdb/chunkenc/xor.go:337-379 | reads the delta of delta that the codec wrote |
| XorChunk.XorIterator.ReadValue | pkg/tsdb/chunkenc/xor.go:388-455 | reads the value that the codec wrote, reusing or replacing the window |
| XorChunk.XorChunk.Iterator | pkg/tsdb/chunkenc/xor.go:117-137 | a new or reused iterator is about to read exactly the samples the header counts |
| XorChunk.XorChunk.Appender | pkg/tsdb/chunkenc/xor.go:91-115 | an appender taken on a chunk is in lockstep with the end of its data: time, value and delta agree, the window agrees unless it is unset |
| XorChunk.XorAppender.Append | pkg/tsdb/chunkenc/xor.go:150-201 | adds the bits of one sample to the body and one to the uint16 count, and nothing else |
| XorChunk.XorAppender.WriteDod | pkg/tsdb/chunkenc/xor.go:174-192 | writes the delta of delta with the range it falls in |
| XorChunk.XorAppender.WriteVDelta | pkg/tsdb/chunkenc/xor.go:207-240 | writes the value difference, and keeps or replaces the window as the codec says |
| XorRoundTrip.StoredAppend | pkg/tsdb/chunkenc/xor.go:150-201 | appending with any appender in lockstep stores one more sample |
| XorRoundTrip.StoredRead | pkg/tsdb/chunkenc/xor.go:293-386 | a chunk whose header counts n of its samples reads back as the first n |
| XorRoundTrip.WriteAndRead | pkg/tsdb/chunkenc/xor.go:91-240 | appending any samples, with any choice of places where a new appender is taken, and reading twice gives exactly the samples counted by the uint16 header (all of them up to 65535) and no error |
| XorRoundTrip.AppendAfterUnusedBits | pkg/tsdb/chunkenc/chunk.go:126-132 | appending to a chunk whose unused bits are forgotten is read back if and only if there were none or the sample is the extrapolated one, from the first sample on |
| XorRoundTrip.AppendAfterRestoring | pkg/tsdb/chunkenc/chunk.go:156-165 | the same for the bytes of any written chunk: the unused bits of its last byte come back as data, as a whole byte or none after one sample |
| Varint.UvarintReads | pkg/tsdb/chunks/head_chunks.go:521 | a length is read back with its size, whatever follows |
| Varint.UvarintPrefix | pkg/tsdb/chunks/head_chunks.go:520-521 | reading a length from five bytes is reading it from the whole record |
| ChunkRecord.RefRoundTrip | pkg/tsdb/chunks/head_chunks.go:342-344 | a reference gives back its offset and the low 32 bits of its file number |
| ChunkRecord.RecordAt | pkg/tsdb/chunks/head_chunks.go:297-323 | the record of every entry lies between two consecutive offsets of the file |
| ChunkRecord.ReadRecord | pkg/tsdb/chunks/head_chunks.go:505-574 | a whole record is read back as the chunk that was written, whatever follows it |
| ChunkRecord.ReadStored | pkg/tsdb/chunks/head_chunks.go:505-574 | bytes that begin as a record does, whatever they say, are read as its data if the checksum is that of the bytes before it, and are corrupt otherwise |
| ChunkRecord.ReadVerified | pkg/tsdb/chunks/head_chunks.go:540-574 | what is read is the data of a record with the right checksum, and nothing else |
| ChunkRecord.ReadCutOff | pkg/tsdb/chunks/head_chunks.go:530-541 | a record that the mapping cuts off is never returned |
| ChunkRecord.ReadFromFile | pkg/tsdb/chunks/head_chunks.go:505-574 | reading any entry of a file gives its chunk if and only if the mapping covers the record |
| ChunkScan.ScanRecord | pkg/tsdb/chunks/head_chunks.go:625-687 | one turn of the scan at a whole record reports series, reference, mint, maxt and sample count and steps over the record |
| ChunkScan.ScanRecords | pkg/tsdb/chunks/head_chunks.go:604-687 | the scan of a log reports all of it if it is recoverable, and fewer chunks if it is not |
| ChunkScan.ScanReportsLog | pkg/tsdb/chunks/head_chunks.go:603-700 | the scan of a file reports exactly what was written, in order, if and only if no entry has all three ids zero and the last record is not shorter than the largest record head |
| ChunkScan.TurnEndsIff | pkg/tsdb/chunks/head_chunks.go:604-645 | where the scan of a file ends without an error, and where bytes too few for a record are one |
| ChunkScan.TurnVerified | pkg/tsdb/chunks/head_chunks.go:625-687 | a reported record has the right checksum, and its fields are those of its bytes |
| ChunkScan.ScanDamaged | pkg/tsdb/chunks/head_chunks.go:664-673 | a damaged record ends the scan of its file with an error, after all records before it were reported |
| ChunkScan.ScanFindsPrefix | pkg/tsdb/chunks/head_chunks.go:603-700 | whatever part of a log a mapping shows, what is reported is the log from its first entry on |
| ChunkScan.AllReportsAt | pkg/tsdb/chunks/head_chunks.go:660-687 | every report is that of an entry, under the reference of its place in its file |
| ChunkScan.ScanAllReports | pkg/tsdb/chunks/head_chunks.go:591-700 | the scan of all files reports everything in writing order if and only if every file is recoverable |
| ChunkScan.ScanAllBounds | pkg/tsdb/chunks/head_chunks.go:675-677 | after a complete scan the recorded maxt of every file bounds its chunks |
| ChunkStore.FlushKeeps | pkg/tsdb/chunks/head_chunks.go:450-456 | a flush puts whole records on disk and keeps the invariant |
| ChunkStore.CutKeeps | pkg/tsdb/chunks/head_chunks.go:363-410 | a cut finishes the current file, takes the next number, and keeps the invariant |
| ChunkStore.AppendKeeps | pkg/tsdb/chunks/head_chunks.go:297-329 | a record written behind the others keeps file, buffers and log in agreement |
| ChunkStore.WriteKeeps | pkg/tsdb/chunks/head_chunks.go:275-340 | WriteChunk keeps the invariant and every earlier entry, and stores its own under the returned reference |
| ChunkStore.WriteGoes | pkg/tsdb/chunks/head_chunks.go:346-352 | a chunk goes to the end of the current file if there is room for it and 34 bytes in 128 MiB, and else is the first of a new file, numbered one above the largest |
| ChunkStore.WriteFlushes | pkg/tsdb/chunks/head_chunks.go:285-289 | which records have reached the disk after a write: all of the file, all but the new one, or those that had before |
| ChunkStore.SettledIff | pkg/tsdb/chunks/head_chunks.go:729-733 | Truncate starts a new file if and only if the current one holds a chunk |
| ChunkStore.HeaderMeans | pkg/tsdb/chunks/head_chunks.go:208-222 | a file passes the check if and only if it has eight bytes and begins with 0x0130BC91 and version 1 |
| ChunkStore.FetchEntry | pkg/tsdb/chunks/head_chunks.go:459-575 | Chunk answers an entry if and only if it is still in the chunk buffer or wholly inside the mapping |
| ChunkStore.FetchVerified | pkg/tsdb/chunks/head_chunks.go:459-575 | every chunk that Chunk answers is in the chunk buffer, or is the data of a record in the file whose checksum is right |
| ChunkStore.FetchDamaged | pkg/tsdb/chunks/head_chunks.go:540-555 | a record whose checksum does not match is refused, unless its chunk is still in the chunk buffer |
| ChunkStore.FetchNothing | pkg/tsdb/chunks/head_chunks.go:478-512 | a closed mapper, an unknown file and an offset too near the end of the mapping |
| ChunkStore.ReadYourWrites | pkg/tsdb/chunks/head_chunks.go:459-575 | Chunk returns encoding and bytes of every chunk ever written, by the reference that was returned |
| ChunkStore.ReadableIff | pkg/tsdb/chunks/head_chunks.go:349-352 | a chunk just written can be read if and only if its record fits in a 128 MiB file |
| ChunkTruncate.RemovedIsPrefix | pkg/tsdb/chunks/head_chunks.go:719-726 | Truncate takes the longest run of finished files below mint, never the current one |
| ChunkTruncate.NoGapWhileDeleting | pkg/tsdb/chunks/head_chunks.go:738-758 | however far the deletion got, the numbers of the files on disk have no gap |
| ChunkTruncate.TruncateKeeps | pkg/tsdb/chunks/head_chunks.go:704-736 | truncation keeps the invariant, and recorded maxts that bound their chunks |
| ChunkTruncate.RemovedIff | pkg/tsdb/chunks/head_chunks.go:719-726 | a file is removed if and only if neither it nor an earlier one is current or recorded to reach mint |
| ChunkTruncate.RecordedExact | pkg/tsdb/chunks/head_chunks.go:383-386 | the recorded maxt of a finished file that bounds its chunks reaches t if and only if t is not positive or some chunk does |
| ChunkTruncate.CurrentExact | pkg/tsdb/chunks/head_chunks.go:325-327 | so does the maxt of the current file, always |
| ChunkTruncate.TruncateRemovesIff | pkg/tsdb/chunks/head_chunks.go:704-736 | in terms of what was written: a file is removed if and only if mint is positive and, up to that file, no file is the current one and no chunk reaches mint |
| ChunkTruncate.TruncateRetains | pkg/tsdb/chunks/head_chunks.go:704-736 | an entry is kept if and only if its file is not removed |
| ChunkTruncate.TruncateSafeIff | pkg/tsdb/chunks/head_chunks.go:704-736 | truncations with any mint keep every chunk that reaches mint, if and only if for every chunk its own or an earlier file is current or recorded to reach as far |
| ChunkTruncate.TruncateHolds | pkg/tsdb/chunks/head_chunks.go:704-736 | a chunk with maxt >= mint stays under its reference when the recorded maxt of its file bounds it |
| ChunkRecovery.IterateReports | pkg/tsdb/chunks/head_chunks.go:581-700 | the scan succeeds and reports exactly what reached the disk if and only if in every file no entry has all ids zero and the last record, with the zeros behind it, is not shorter than the largest head |
| ChunkRecovery.IterateBounds | pkg/tsdb/chunks/head_chunks.go:585-587 | after a complete scan the recorded maxt of every finished file bounds its chunks |
| ChunkRecovery.Reopens | pkg/tsdb/chunks/head_chunks.go:162-224 | at any moment between two calls the directory passes the checks of opening, and holds the flushed entries |
| ChunkRecovery.RepairMeans | pkg/tsdb/chunks/head_chunks.go:246-271 | what is removed before the checks is the file with the largest number, if that is not 0 and the file is empty |
| ChunkRecovery.ReopensAfterCut | pkg/tsdb/chunks/head_chunks.go:246-271 | so it does when a cut left its new file empty |
| ChunkRecovery.ClosedDirectory | pkg/tsdb/chunks/head_chunks.go:793-815 | after Close the directory holds everything that was written |
| ChunkRecovery.CrashRecovery | pkg/tsdb/chunks/head_chunks.go:581-700 | after a crash between two calls the reopened scan reports exactly the flushed entries if and only if they are recoverable |
| ChunkRecovery.RecoveredReadable | pkg/tsdb/chunks/head_chunks.go:459-575 | every XOR chunk that had reached the disk can be read after reopening, by the reference it was given |
| ChunkRecovery.ReportedReadable | pkg/tsdb/chunks/head_chunks.go:581-700 | every report of a complete scan is about a written chunk, and its reference reads that chunk |
| ChunkRecovery.ReadableAfterReopening | pkg/tsdb/fileutil/mmap.go:26-54 | a chunk can be read after closing and reopening whether its record fits in 128 MiB or not |
| ChunkRecovery.RunKeeps | pkg/tsdb/chunks/head_chunks.go:275-410 | every run of writes, cuts, truncations and scans keeps the invariant and every entry no truncation covers, when the recorded maxt of its own file bounds it |
| ChunkRecovery.RunReadsBack | pkg/tsdb/chunks/head_chunks.go:275-575 | over every run from every reachable state, scanned or not, the reference of a chunk written in it gives the chunk back until a truncation covers it |
| ChunkRecovery.EmptyDirectory | pkg/tsdb/chunks/head_chunks.go:184-199 | an empty directory is a state from which every run may start |
| ChunkRecovery.RunRecords | pkg/tsdb/chunks/head_chunks.go:275-410 | over every run from an empty directory: the maxt of every file, current or finished, is what its chunks reach |
| ChunkRecovery.RunTruncates | pkg/tsdb/chunks/head_chunks.go:704-736 | and Truncate removes exactly the files up to which no file is current and no chunk reaches a positive mint |
| ChunkRecovery.RecordedReaches | pkg/tsdb/chunks/head_chunks.go:585-696 | the maxt recorded for a file reaches t after a scan, complete or not, if and only if it did before or the callback was told of a chunk of the file that does |
| ChunkRecovery.TruncateSafeAfterScan | pkg/tsdb/chunks/head_chunks.go:585-736 | after a scan truncations lose no chunk that reaches mint, if and only if for every chunk its own or an earlier file is current, was recorded before, or was reported before the first error, to reach as far |
| ChunkRecovery.TruncateAfterFailedScan | pkg/tsdb/chunks/head_chunks.go:585-587 | after a scan of a reopened directory that fails at the first file, a truncation above 0 deletes every file whatever it holds |
| ChunkRecovery.LostAfterFailedScan | pkg/tsdb/chunks/head_chunks.go:585-736 | a stray byte in the first file, and the chunk of the second is lost by a truncation with a mint it reaches |
| ChunkRecovery.FileZeroFails | pkg/tsdb/chunks/head_chunks.go:598-603 | a file numbered 0 is taken for an empty current file, and the scan of a reopened directory ends with an error |
| HeadChunks.ChunkBuffer.Put | pkg/tsdb/chunks/head_chunks.go:841-847 | the sharded buffer is one map |
| HeadChunks.ChunkBuffer.Get | pkg/tsdb/chunks/head_chunks.go:849-856 | finds exactly what was put and not cleared |
| HeadChunks.ChunkBuffer.Clear | pkg/tsdb/chunks/head_chunks.go:858-864 | empties all shards |
| HeadChunks.ChunkDiskMapper.WriteBytes | pkg/tsdb/chunks/head_chunks.go:419-423 | what is on disk and in the write buffer together grows by the bytes written, and nothing is flushed while they fit |
| HeadChunks.ChunkDiskMapper.FlushBuffer | pkg/tsdb/chunks/head_chunks.go:450-456 | the flush of the state machine |
| HeadChunks.ChunkDiskMapper.NextSequenceFile | pkg/tsdb/chunks/chunks.go:551-571 | the number after the largest one |
| HeadChunks.ChunkDiskMapper.CutNewFile | pkg/tsdb/chunks/head_chunks.go:355-410 | the cut of the state machine, keeping the invariant |
| HeadChunks.ChunkDiskMapper.PutBytes | pkg/tsdb/chunks/head_chunks.go:297-323 | head, data and checksum make one record |
| HeadChunks.ChunkDiskMapper.WriteChunk | pkg/tsdb/chunks/head_chunks.go:275-340 | the write of the state machine: new state, reference, and the chunk held under it; an error exactly when closed |
| HeadChunks.ChunkDiskMapper.Fetch | pkg/tsdb/chunks/head_chunks.go:459-575 | Chunk: the answer of the state machine; the chunk itself for every entry that fits a file; and nothing whose checksum is wrong |
| HeadChunks.ChunkDiskMapper.FilesBelow | pkg/tsdb/chunks/head_chunks.go:710-726 | computes the files to remove |
| HeadChunks.ChunkDiskMapper.DeleteFiles | pkg/tsdb/chunks/head_chunks.go:738-758 | the files go from the mappings and from the disk |
| HeadChunks.ChunkDiskMapper.RemoveFiles | pkg/tsdb/chunks/head_chunks.go:750-756 | deletes files one by one with no gap in the numbers at any moment |
| HeadChunks.ChunkDiskMapper.Truncate | pkg/tsdb/chunks/head_chunks.go:704-736 | the truncation of the state machine; fails exactly when the maxts are not set; keeps exactly the entries of guarded files |
| HeadChunks.ChunkDiskMapper.ReadTurn | pkg/tsdb/chunks/head_chunks.go:604-687 | one turn of the scan over a file |
| HeadChunks.ChunkDiskMapper.ScanOneFile | pkg/tsdb/chunks/head_chunks.go:598-696 | the scan of one file, and its maxt raised to that of its chunks |
| HeadChunks.ChunkDiskMapper.IterateAllChunks | pkg/tsdb/chunks/head_chunks.go:581-700 | the scan of all files; the maxts count as set whatever the outcome |
| HeadChunks.ChunkDiskMapper.Close | pkg/tsdb/chunks/head_chunks.go:793-815 | flushes everything; the directory can be opened again with the whole log |
| HeadChunks.NewChunkDiskMapper | pkg/tsdb/chunks/head_chunks.go:130-224 | opens a repaired directory if and only if buffer size, file numbers and headers are in order |
| Segments.RecordIn | pkg/tsdb/chunks/chunks.go:362-389 | every record lies at its position in the segment |
| Segments.ReadSegmentRecord | pkg/tsdb/chunks/chunks.go:515-548 | a whole record is read back as the chunk that was written |
| Segments.ReadSegmentStored | pkg/tsdb/chunks/chunks.go:527-549 | bytes that begin as a record does are read as its data if the checksum is right, and are corrupt otherwise |
| Segments.ReaderVerified | pkg/tsdb/chunks/chunks.go:500-549 | what Reader.Chunk returns is the data of a record with the right checksum |
| Segments.ReaderDamaged | pkg/tsdb/chunks/chunks.go:538-543 | a damaged record is refused |
| Segments.SegmentStarts | pkg/tsdb/chunks/chunks.go:34-47 | every segment begins with 0x85BD40DD and version 1 |
| Segments.ReaderReturnsChunk | pkg/tsdb/chunks/chunks.go:500-549 | Reader.Chunk returns every chunk by the reference assigned to it, while offsets fit in 32 bits |
| SegmentWriter.Writer.Cut | pkg/tsdb/chunks/chunks.go:199-219 | starts an empty segment |
| SegmentWriter.Writer.MakeBatches | pkg/tsdb/chunks/chunks.go:298-325 | the batches concatenate to the input, none is too large unless it is as small as it can be, and none was cut earlier than necessary |
| SegmentWriter.Writer.WriteBatch | pkg/tsdb/chunks/chunks.go:353-391 | the batch is added to the last segment and every reference tells where its chunk is |
| SegmentWriter.Writer.WriteChunks | pkg/tsdb/chunks/chunks.go:289-347 | the chunks follow what was written before, in order: the first batch goes on with the last segment, every other one is a segment of its own, none is empty or cut earlier than it has to be; every segment is within the segment size or holds at most one chunk |
| SegmentWriter.OffsetsAlwaysFit | pkg/tsdb/chunks/chunks.go:369 | with a segment size of at most 2^32 every offset fits in a reference |
| SegmentWriter.WriterThenReader | pkg/tsdb/chunks/chunks.go:289-549 | Reader.Chunk gives back every chunk of every WriteChunks call, also after later calls |
| SampleRing.QueueIsWindow | pkg/tsdb/tsdbutil/buffer.go:168-199 | for samples added in time order the queue is exactly the window that ends with the newest |
| SampleRing.StaleSuffix | pkg/tsdb/tsdbutil/buffer.go:191-198 | what an earlier bound made stale stays stale |
| SampleRing.GrownWindow | pkg/tsdb/tsdbutil/buffer.go:173-189 | growing keeps the samples in order |
| SampleRing.SampleAtFront | pkg/tsdb/tsdbutil/buffer.go:192-198 | what the eviction loop looks at after growing: the zeros of the new buffer, then the samples again |
| SampleRing.GrownOutcome | pkg/tsdb/tsdbutil/buffer.go:192-198 | where the eviction loop stops after growing: how many samples it drops |
| SampleRing.EvictedSoundly | pkg/tsdb/tsdbutil/buffer.go:192-198 | that is the number of stale samples if and only if the add is sound; else it drops more, or stops among the zeros |
| SampleRing.AddIff | pkg/tsdb/tsdbutil/buffer.go:170-199 | an add leaves the right queue if and only if it does not both grow and forget, or forgets past the zeros with a positive bound |
| SampleRing.Ring.Add | pkg/tsdb/tsdbutil/buffer.go:170-199 | for every add to any ring, in order or not: how many samples are dropped, where the ring then starts, and what it holds; always returns except from a full ring of one slot that should forget |
| SampleRing.SixteenSlots | pkg/tsdb/tsdbutil/buffer.go:31-37 | a full ring of the size the code makes, one sample to forget: the add forgets more |
| SampleRing.Ring.Samples | pkg/tsdb/tsdbutil/buffer.go:210-224 | the queue in order, across the end of the buffer |
| SampleRing.Ring.At | pkg/tsdb/tsdbutil/buffer.go:162-166 | the i-th element of the queue |
| SampleRing.Ring.Last | pkg/tsdb/tsdbutil/buffer.go:202-208 | the newest element, if there is one |
| BufferedIterator.SeriesIterator.Seek | pkg/tsdb/chunkenc/xor.go:257-268 | the behaviour asked of an iterator: the first sample at or after t from the current one on |
| BufferedIterator.QueueCovers | pkg/tsdb/tsdbutil/buffer.go:51-77 | the ideal queue of a position holds every earlier sample within delta |
| RingStand.AddOne | pkg/tsdb/tsdbutil/buffer.go:170-199 | one add to any ring, in order or garbled, is one step of AddStand: slots, start, contents and the order in which they were written |
| RingStand.GarbledHolds | pkg/tsdb/tsdbutil/buffer.go:162-166 | a garbled ring holds its newest samples followed by the oldest ones of its buffer |
| RingStand.DisorderHappens | pkg/tsdb/tsdbutil/buffer.go:192-198 | a ring of 16 slots, the times -16 to -1, a window of 15 and an add at 0 leave fifteen zeros and the sample just forgotten |
| RingOrder.OrderedIff | pkg/tsdb/tsdbutil/buffer.go:170-199 | for samples added in time order: what the ring holds is in time order if and only if it is in order and has forgotten what a garbled ring left; then it is the last samples added |
| BufferedIterator.CoversIff | pkg/tsdb/tsdbutil/buffer.go:51-77 | the last l samples cover the window if and only if the one before them is too old for it |
| BufferedIterator.SoundIff | pkg/tsdb/tsdbutil/buffer.go:51-89 | the ring is the queue at every position passed if and only if every add was sound |
| BufferedIterator.SoundCovers | pkg/tsdb/tsdbutil/buffer.go:51-89 | then it covers the window |
| BufferedIterator.SparseCovers | pkg/tsdb/tsdbutil/buffer.go:51-89 | so it does in every series without n consecutive samples within delta, for n slots |
| BufferedIterator.NoDisorder | pkg/tsdb/tsdbutil/buffer.go:192-198 | without times before 0 the ring is never in disorder |
| BufferedIterator.ShapeIsStand | pkg/tsdb/tsdbutil/buffer.go:170-199 | while the ring stays in order it holds the last samples of the series, as many as slots and start say |
| BufferedIterator.KeepsIff | pkg/tsdb/tsdbutil/buffer.go:51-89 | for every series in time order: the window is covered if and only if the ring is in order, holds nothing from a garbled one, and is long enough |
| BufferedIterator.DisorderLoses | pkg/tsdb/tsdbutil/buffer.go:51-89 | a ring that is garbled, or still holds what it held when it was, covers no window and is out of time order |
| BufferedIterator.SeekDense | pkg/tsdb/tsdbutil/buffer.go:51-77 | a series at which the code fails: the times 1 to 18, delta 15, three Seeks |
| BufferedIterator.BufferedSeriesIterator.Standing | pkg/tsdb/tsdbutil/buffer.go:51-89 | at every position between calls, in order or not, the exact condition for the ring to cover the window, and that it does in sparse series |
| BufferedIterator.BufferedSeriesIterator.Next | pkg/tsdb/tsdbutil/buffer.go:80-89 | moves on by one; the ring then stands as one more add leaves it, and covers the new window if and only if it is in order, has forgotten what a garbled ring left, and is long enough |
| BufferedIterator.BufferedSeriesIterator.Seek | pkg/tsdb/tsdbutil/buffer.go:52-77 | succeeds if and only if there is a sample at or after t from the position before the call, and stops at the first; the ring covers its window in every series without 16 consecutive samples within delta, and in any series exactly when it is in order, has forgotten what a garbled ring left, and is long enough |
| Crc16.CheckCrc16sum | pkg/utils/crcutil/crc16.go:61-74 | the table-driven loop computes the bitwise CRC of section 6.2.2 of MODBUS over Serial Line V1.02, bytes swapped |
| Crc16.CheckValue | pkg/utils/crcutil/crc16.go:61-74 | the check value of CRC-16/MODBUS, 0x4B37 for the digits 1 to 9 |
| Crc16.TableMatches | pkg/utils/crcutil/crc16.go:3-59 | each of the 256 entries of both tables is eight steps of the bitwise division |
| Crc16.TableStep | pkg/utils/crcutil/crc16.go:64-72 | one turn of the loop absorbs one byte |
| Crc16.ResidueZero | pkg/utils/crcutil/crc16.go:61-74 | a message with two bytes behind it has CRC 0 if and only if they are its CRC |
| Crc16.BurstDetected | pkg/utils/crcutil/crc16.go:61-74 | messages that differ only within two adjacent bytes have different CRCs |
| ByteLayout.ParseIsWordsValue | pkg/utils/binutil/bytes.go:17-119 | each of the twelve parsers reads the registers in the word and byte order of its layout |
| ByteLayout.WordsRoundTrip | pkg/utils/binutil/bytes.go:169-272 | encoding and parsing in one layout give the value back at 16, 32 and 64 bits |
| ModbusSlave.ServeAdu | pkg/protocol/modbus/model/modbustcp.go:58-102 | a device that follows the standard understands a well-formed frame |
| ModbusFrame.GenerateReadMessage | pkg/protocol/modbus/model/modbustcp.go:58-102 | the request bytes are the standard's read request, and the response buffer has the length of its answer |
| ModbusFrame.ModBusDataFrame.WriteTransactionId | pkg/protocol/modbus/runtime/type.go:121-125 | the next transaction identifier, in the request too |
| ModbusPacking.SortVariables | pkg/protocol/modbus/runtime/type.go:85-97 | a permutation in address order |
| ModbusPacking.PackVariables | pkg/protocol/modbus/modbusbroker.go:79-125 | the frames hold the variables in order, and every frame but the first starts at its first variable, reaches as far as it can and no further |
| ModbusPacking.GreedyOptimal | pkg/protocol/modbus/modbusbroker.go:79-119 | no other grouping into single requests needs fewer of them, for position 0 and non-decreasing ends |
| ModbusPacking.FirstFrameEmpty | pkg/protocol/modbus/modbusbroker.go:79-119 | with a position the first frame asks for nothing if and only if the first variable is out of its reach |
| ModbusRead.ExpandBool | pkg/utils/binutil/bytes.go:553-565 | bit i of the packed bytes, as a byte |
| ModbusRead.ValidateAndExtractMessage | pkg/protocol/modbus/modbusbroker.go:412-468 | accepts and rejects exactly as the checks on identifiers, slave, lengths and CRC say, and returns the data |
| ModbusRead.ExtractAccepts | pkg/protocol/modbus/modbusbroker.go:412-446 | an answer is accepted if and only if transaction, slave, function code, length and CRC are right, and refused for the first of them that is not |
| ModbusRead.ExtractTakes | pkg/protocol/modbus/modbusbroker.go:448-467 | what is taken from an accepted answer: a byte for each bit, or the registers |
| ModbusRead.CheckCrc | pkg/protocol/modbus/modbusbroker.go:440-446 | the comparison succeeds if and only if the trailer is the CRC |
| ModbusRead.ParseVariableValue | pkg/protocol/modbus/runtime/type.go:127-274 | every variable of the frame gets the value at its place, or the call panics exactly when one of them runs past the data |
| ModbusMeaning.DirectMeans | pkg/protocol/modbus/runtime/type.go:127-274 | the value of a variable read alone, in terms of the memory: bits as true or 1, the bit of a word that Bits names, numbers by the pattern of their registers, rates applied to numbers in registers |
| ModbusMeaning.ParsedBit | pkg/protocol/modbus/runtime/type.go:131-149 | what is parsed from the byte of a bit, whatever it holds: on for 1 only |
| ModbusMeaning.MeansOne | pkg/protocol/modbus/runtime/type.go:127-274 | no other value is meant |
| ModbusRead.AskOnce | pkg/protocol/modbus/modbusbroker.go:370-386 | one attempt; the exact buffer and outcome for every answer of every length and all three device models, and what that is for a device that follows the standard |
| ModbusRead.Retry | pkg/protocol/modbus/modbusbroker.go:393-410 | the exact history of at most three attempts, and what they come to; a device that follows the standard is read if in one of three attempts its answers come back |
| ModbusRead.NeverBroken | pkg/protocol/modbus/modbusbroker.go:393-410 | a connection that never breaks is such a connection |
| ModbusRead.AduAccepted | pkg/protocol/modbus/modbusbroker.go:412-468 | the device's answer has the expected length and passes every check |
| ModbusRead.AnswerAccepted | pkg/protocol/modbus/modbusbroker.go:412-468 | so does the answer to the frame's own request |
| ModbusBroker.RegisterValue | pkg/protocol/modbus/runtime/type.go:150-274 | a register variable inside a frame is parsed from its own registers |
| ModbusBroker.CoilVariable | pkg/protocol/modbus/runtime/type.go:131-149 | a coil variable inside a frame is parsed from its own coil |
| ModbusBroker.FrameTransparent | pkg/protocol/modbus/modbusbroker.go:79-119 | every variable of a frame is read as if it were read alone |
| ModbusBroker.ReadFrame | pkg/protocol/modbus/modbusbroker.go:353-391 | what the attempts at a frame come to: their error, a panic, or the values in the data of the last one |
| ModbusBroker.FrameOutcomes | pkg/protocol/modbus/modbusbroker.go:353-391 | the outcome of each frame of a function code is the readings of its variables read alone |
| ModbusBroker.ReadFrames | pkg/protocol/modbus/modbusbroker.go:333-391 | batching is invisible: the readings of all frames are those of the variables read alone, and each is what its variable means in the memory |
| ModbusBroker.NewBroker | pkg/protocol/modbus/modbusbroker.go:63-135 | one list of frames for each function code in use, each packed from exactly the variables of that code |
| ModbusBroker.EveryVariableInAFrame | pkg/protocol/modbus/modbusbroker.go:65-127 | every variable is in some frame of its function code, as often as the device lists it, and nothing else is |
| ModbusBroker.FrameReadableIff | pkg/protocol/modbus/modbusbroker.go:109 | parsing a frame does not panic if and only if no variable ends after the last one, or with serial framing more than one register after it |
| ModbusBroker.FrameRightIff | pkg/protocol/modbus/modbusbroker.go:109 | with either framing, the numbers of a frame are read right from every memory if and only if no variable ends after the last one |
| ModbusBroker.LastEndsFirst | pkg/protocol/modbus/modbusbroker.go:79-119 | an INT64 at address 0 and an INT16 at address 1, listed in either order, make a frame whose parsing panics whatever is in the memory |
| ModbusWrite.ActionBytes | pkg/protocol/modbus/modbusbroker.go:490-688 | the write request of one action, byte for byte |
| ModbusWrite.GenerateActionBytes | pkg/protocol/modbus/modbusbroker.go:490-688 | one request per action, in order |
| ModbusWrite.WriteEffect | pkg/protocol/modbus/modbusbroker.go:490-688 | what one write does to the memory of a standard device |
| ModbusWrite.CoilSwitched | pkg/protocol/modbus/modbusbroker.go:490-551 | a write to a coil, or to the number of a discrete input, switches the coil on exactly for true, an integer above 0, or a float above 0, and changes nothing else |
| ModbusWrite.WriteThenRead | pkg/protocol/modbus/modbusbroker.go:552-685 | a number written to a holding register is read back, in every layout; with a rate it is unscaled, stored and scaled again |
| ModbusWrite.WriteThenReadCoil | pkg/protocol/modbus/modbusbroker.go:490-551 | a coil that is written is read back as on or off, a bool as written |
| ModbusWrite.WriteKeeps | pkg/protocol/modbus/modbusbroker.go:490-688 | a write leaves every other variable as it was |
| ModbusWrite.WriteAllThenRead | pkg/protocol/modbus/modbusbroker.go:490-688 | after writes to variables apart from each other, each of them reads back as written |
| ModbusPool.Clients.GetMessenger | pkg/protocol/modbus/runtime/clients.go:25-66 | takes the front messenger or registers a request under a key never used before |
| ModbusPool.Clients.ReleaseMessenger | pkg/protocol/modbus/runtime/clients.go:68-83 | hands the messenger to a waiting request, or puts it back |
| ModbusPool.Clients.Receive | pkg/protocol/modbus/runtime/clients.go:60-64 | a waiting request takes what was put into its channel |
| ModbusPool.AcquireKeeps | pkg/protocol/modbus/runtime/clients.go:25-46 | the idle count is the list length, waiting requests mean no idle messenger, and no messenger is gained or lost |
| ModbusPool.ReleaseKeeps | pkg/protocol/modbus/runtime/clients.go:68-83 | a released messenger is in the pool exactly once more |
| ModbusPool.PickUpKeeps | pkg/protocol/modbus/runtime/clients.go:60-64 | a messenger handed over leaves the pool exactly once |
| ModbusPoll.NextInv | pkg/protocol/modbus/modbusbroker.go:333-391 | every step of every goroutine keeps the invariant of pool, requests, wait group and results |
| ModbusPoll.WaitsForFrames | pkg/protocol/modbus/modbusbroker.go:333-351 | the wait group is at zero if and only if every frame is done, whatever actions are under way, and the channel can then be closed |
| ModbusPoll.NeverStuck | pkg/protocol/modbus/modbusbroker.go:333-391 | a poll over at least one messenger can always go on until it is finished |
| ModbusPoll.StepsDecrease | pkg/protocol/modbus/modbusbroker.go:333-391 | every step brings the poll nearer to its end |
| ModbusPoll.PollCompletes | pkg/protocol/modbus/modbusbroker.go:333-391 | every run ends, whatever the interleaving and however many frames panic, with all messengers idle and one result: the readings of all frames that were parsed and the errors of all that failed |
| ModbusPoll.FirstRun | pkg/protocol/modbus/modbusbroker.go:333-391 | every poll over at least one messenger has a run that completes |
| ModbusPoll.PollReads | pkg/protocol/modbus/modbusbroker.go:333-391 | a concurrent poll whose frames come out as ReadFrame says ends with the direct readings of all variables, each as often as the frames hold it, and without errors |
| ModbusDevice.DevicePlaced | pkg/protocol/modbus/modbusbroker.go:63-135 | a condition on the variables as the user lists them is enough for the packing of every function code |
| ModbusDevice.DirectPermuted | pkg/protocol/modbus/modbusbroker.go:470-488 | reading the same variables in another order gives the same readings in another order |
| ModbusDevice.AskDevice | pkg/protocol/modbus/modbusbroker.go:333-351 | the frames of all function codes hold every variable as often as listed, and each comes out as its variables read alone |
| ModbusDevice.DevicePoll | pkg/protocol/modbus/modbusbroker.go:333-488 | every finished poll of those frames, in any interleaving, has the readings of all variables and no error |
| ModbusDevice.ReachableDevice | pkg/protocol/modbus/modbusbroker.go:393-410 | a device is reachable if no connection breaks, and also if every first attempt does |
| ModbusDevice.PollDevice | pkg/protocol/modbus/modbusbroker.go:48-391 | from the list of variables to the one result of a concurrent poll: what each variable means in the memory, as often as listed, and no error |
| ModbusPoll.FinalCompleted | pkg/protocol/modbus/modbusbroker.go:470-488 | one message is received for each frame that was parsed or failed, none for a panic; the one result holds their readings and errors, each as often |
| ModbusPoll.RunSafe | pkg/protocol/modbus/modbusbroker.go:333-391 | nothing is sent on the closed channel and no messenger is with two goroutines, in any state of any run |
| DeviceManager.Manager.ReadyCollect | pkg/device/manager.go:293-369 | starts a broker where there was none |
| DeviceManager.Manager.CancelCollect | pkg/device/manager.go:276-291 | the device is stopped and neither collected nor watched |
| DeviceManager.Manager.CreateDevice | pkg/device/manager.go:81-108 | a new device is collected, watched or neither, with the status of the attempt, or stopped if it failed otherwise |
| DeviceManager.Manager.DeleteDevice | pkg/device/manager.go:110-140 | the device goes at once, its broker when the goroutine runs |
| DeviceManager.Manager.CancelDeleted | pkg/device/manager.go:132-136 | the goroutine of a deletion removes broker and watched object |
| DeviceManager.Manager.UpdateDevice | pkg/device/manager.go:142-174 | a copy takes the place of the device; broker and watched object stay |
| DeviceManager.Manager.ResultArrives | pkg/device/manager.go:326-358 | a result sets the status of the current object and keeps the invariant |
| DeviceManager.Manager.SwitchStatus | pkg/device/manager.go:433-524 | a status command keeps a device from being both collected and watched, never replaces a live broker, and leaves the device in the status of the attempt |
| DeviceManager.Manager.Resumed | pkg/device/manager.go:413-421 | how far a tick gets |
| DeviceManager.Manager.Tick | pkg/device/manager.go:406-431 | the devices before the first failing one are resumed, that one is unconnected, the others are not even tried; the status of each afterwards |
| DeviceManager.LateResult | pkg/device/manager.go:326-358 | a result that arrives after Stop marks the device as collecting, and Start then does nothing |

## Left out

- WriteAndRead: readers that run while an appender works on the last byte of the same chunk are not modelled; iterators
  start from the bytes as they are. `Compact` and the pooling of chunk objects are not modelled either.
- XorChunk.XorIterator.Seek: over data that decodes; after an error it only says that nothing changes.
- XorChunk.XorChunk.Appender: which error comes back for data that does not decode is not said.
- XorChunk.XorIterator.Next: on corrupt or cut-off data the contract only says that an error is reported or a sample
  counted; which bits the reader invents is said by BStreamReader.ReadBits alone.
- XorChunk.XorAppender.Append: the appender must be in lockstep with the chunk; two appenders used in turn on one chunk
  are not.
- HeadChunks.ChunkDiskMapper.WriteChunk: a chunk is shorter than 2^32 bytes, as the five-byte length field of the format
  assumes. Reading goes on while file numbers are below 2^32, since a reference holds 32 bits of them.
- HeadChunks.ChunkDiskMapper.IterateAllChunks: a current file longer than its mapping, which only an oversized chunk can
  make, would make the source panic; the callback's own error is not modelled. A mapping shows zeros past the end of its
  file, as a preallocated file does.
- HeadChunks.ChunkDiskMapper.CutNewFile: calls after Close are not modelled. `DeleteCorrupted`, `Size` and the locks are left
  out; each call is one step, and file system calls succeed.
- HeadChunks.ChunkDiskMapper.Truncate: not after Close, like IterateAllChunks.
- SegmentWriter.Writer.WriteChunks: the bufio.Writer in between is left out, since segments are read after Close; the
  directory is empty at the start; an empty call on a new writer leaves one empty segment.
- SampleRing.Ring.Add: delta is not negative and the newest time minus delta does not underflow, otherwise the eviction
  loop can run past the newest sample; and not from a full ring of one slot that should forget, where the loop would not
  end (the code only makes rings of 16).
- BufferedIterator.BufferedSeriesIterator.Seek: for series in time order whose times minus delta do not underflow, and from
  a position reached by a Seek. After a Seek or Next that ran off the end the iterator is used up: its lastTime is stale,
  and later calls are not claimed to be right.
- BufferedIterator.BufferedSeriesIterator.Next: after the first Seek, like Seek.
- ModbusBroker.NewBroker: function codes are 1 to 4, as the API checks, and addresses stay 65536 below 2^64, near which the
  packing loop of the source would not end.
- ModbusBroker.ReadFrames: one frame after the other; the concurrent poll is PollDevice, where the outcome of each frame is
  fixed by its own connection and not computed inside the state machine.
- ModbusBroker.FrameRightIff: for numbers with a rate of 0 or 1; what a rate makes of a wrong number is float arithmetic, and a
  bool with a bit outside its register is false whatever is read.
- ModbusRead.ValidateAndExtractMessage: the source adds to the length field in a uint8; that lengths above 252 wrap around
  with serial framing is not modelled, as no frame's buffer is long enough for them.
- ModbusRead.AskOnce: the whole answer of a device arrives at once, or is cut short.
- ModbusRead.Retry: reconnecting and the network are parameters; deadlines are left out.
- ModbusWrite.WriteThenRead: scaling and unscaling are parameters; that one undoes the other is float arithmetic. The
  framing of `DeliverAction`, its conversion of JSON values and its check of the answer are left out; a BOOL in a register
  emits function code 0 and writes nothing.
- ModbusPool.Clients.GetMessenger: calls without cancellation and before Destroy, with request keys that do not wrap around
  2^64. The cancelled branch of the source puts a messenger back without raising the idle count.
- DeviceManager.Manager.CreateDevice: identifiers are new. Every API call, tick and result is one step; loading devices at
  start-up, versions, MQTT and topics are left out.
- `UpdateDevice` of the Modbus device manager, `DifferenceAndIntersectionObjects` and `DeepCopyObject`: slice and map
  bookkeeping, which would add easy members only.
- Sockets, serial ports, HTTP, JSON, flags, logging, fsync, rename, preallocation and file locks: input and output.
- `pkg/protocol/s7`, `pkg/protocol/opcua`, `pkg/data`, `pkg/dataweb`, `pkg/gateway`, `pkg/iotsimulator`, `cmd`, `hack`: other
  protocols, queries, start-up and build scripts.
