/**
 The head chunk store as a state machine: what each operation of ChunkDiskMapper does to the files, the write buffer,
 the chunk buffer and the map of m-mapped files, together with the log of what was written.
 */
module ChunkStore {
  import opened Bits
  import opened Varint
  import opened ChunkRecord
  import opened ChunkScan
  import opened Keys

  datatype Config = Config(crc: Checksum, bufferSize: nat)

  /** An m-mapped file: the length of the mapping, and the recorded maxt. */
  datatype MappedFile = MappedFile(size: nat, maxt: Int64)

  /** The fields of ChunkDiskMapper. disk is what the file system holds, buffer what the bufio.Writer still holds. */
  datatype Store = Store(disk: map<nat, seq<Byte>>, mapped: map<nat, MappedFile>,
                         open: bool, cur: nat, size: nat, maxt: Int64, buffer: seq<Byte>,
                         pending: map<UInt64, Chunk>, maxtSet: bool, closed: bool)

  /** The store and its history: what each file was given to hold, and how much of the current file is flushed. */
  datatype State = State(store: Store, log: map<nat, seq<Entry>>, flushed: nat)

  // ---------------------------------------------------------------- operations

  /** The current file exists. */
  predicate Wf(st: State) {
    var s := st.store;
    if s.open then s.cur in s.disk && s.cur in s.mapped && s.cur in st.log else s.size == 0
  }

  /** flushBuffer */
  function Flush(st: State): State
    requires Wf(st) && st.store.open
  {
    var s := st.store;
    State(s.(disk := s.disk[s.cur := s.disk[s.cur] + s.buffer], buffer := [], pending := map[]),
          st.log, |st.log[s.cur]|)
  }

  function NextFile(disk: map<nat, seq<Byte>>): nat {
    Highest(disk.Keys) + 1
  }

  /** finalizeCurFile, and the recorded maxt of the file that is left. */
  function Finalize(st: State): State
    requires Wf(st)
  {
    if !st.store.open then st
    else
      var f := Flush(st);
      var s := f.store;
      f.(store := s.(mapped := s.mapped[s.cur := s.mapped[s.cur].(maxt := s.maxt)]))
  }

  /** cutSegmentFile, and the fields of the new current file. */
  function OpenNext(st: State): State {
    var s := st.store;
    var n := NextFile(s.disk);
    State(s.(disk := s.disk[n := HEADER], mapped := s.mapped[n := MappedFile(MAX_FILE_SIZE, 0)],
             open := true, cur := n, size := HEADER_SIZE, maxt := 0),
          st.log[n := []], 0)
  }

  /** cut */
  function Cut(st: State): State
    requires Wf(st)
  {
    OpenNext(Finalize(st))
  }

  /** The writes of one record: bytes, maximum time and chunk buffer. */
  function Append(c: Config, st: State, e: Entry): State
    requires Wf(st) && st.store.open
  {
    var s := st.store;
    State(s.(buffer := s.buffer + Record(c.crc, e), size := s.size + RecordSize(e),
             maxt := if e.maxt > s.maxt then e.maxt else s.maxt,
             pending := s.pending[ChunkRef(s.cur, s.size) := e.chunk]),
          st.log[s.cur := st.log[s.cur] + [e]], st.flushed)
  }

  predicate ShouldCut(s: Store, e: Entry) {
    s.size == 0 || s.size + |e.chunk.bytes| + MAX_META_SIZE > MAX_FILE_SIZE
  }

  /** The chunk is smaller than the write buffer, but not than the room left in it. */
  predicate FlushFirst(c: Config, s: Store, e: Entry) {
    && |e.chunk.bytes| + MAX_META_SIZE < c.bufferSize
    && c.bufferSize - |s.buffer| < |e.chunk.bytes| + MAX_META_SIZE
  }

  predicate FlushAfter(c: Config, e: Entry) {
    |e.chunk.bytes| + MAX_META_SIZE >= c.bufferSize
  }

  /** The state in which WriteChunk puts the record down. */
  function Ready(c: Config, st: State, e: Entry): State
    requires Wf(st)
  {
    var st1 := if ShouldCut(st.store, e) then Cut(st) else st;
    if FlushFirst(c, st1.store, e) then Flush(st1) else st1
  }

  function Write(c: Config, st: State, e: Entry): State
    requires Wf(st)
  {
    var st1 := Append(c, Ready(c, st, e), e);
    if FlushAfter(c, e) then Flush(st1) else st1
  }

  function Maxts(mapped: map<nat, MappedFile>): map<nat, Int64> {
    map f | f in mapped :: mapped[f].maxt
  }

  /** The files Truncate decides to delete. */
  function Removable(files: seq<nat>, cur: nat, maxts: map<nat, Int64>, mint: Int64): seq<nat>
    requires forall f | f in files :: f in maxts
  {
    if files == [] || files[0] == cur || maxts[files[0]] >= mint then []
    else [files[0]] + Removable(files[1..], cur, maxts, mint)
  }

  function Removed(s: Store, mint: Int64): seq<nat> {
    Removable(Ascending(s.mapped.Keys), s.cur, Maxts(s.mapped), mint)
  }

  function Delete(st: State, files: set<nat>): State {
    st.(store := st.store.(disk := st.store.disk - files, mapped := st.store.mapped - files), log := st.log - files)
  }

  /** Truncate starts a new file if the current one holds chunks. */
  function Settled(st: State): State
    requires Wf(st)
  {
    if st.store.size > HEADER_SIZE then Cut(st) else st
  }

  function Truncate(st: State, mint: Int64): State
    requires Wf(st)
  {
    if !st.store.maxtSet then st
    else
      Delete(Settled(st), ToSet(Removed(st.store, mint)))
  }

  /** Chunk */
  function Fetch(c: Config, s: Store, ref: UInt64): Lookup {
    var file := RefFile(ref);
    if s.closed then MapperClosed
    else if file == s.cur && ref in s.pending then Found(s.pending[ref])
    else if file !in s.mapped || file !in s.disk then Corruption
    else ReadChunk(c.crc, Mapped(s.disk[file], s.mapped[file].size), RefOffset(ref))
  }

  // ---------------------------------------------------------------- invariant

  /** A record that a file of the largest size can hold. */
  predicate Fits(e: Entry) {
    HEADER_SIZE + RecordSize(e) <= MAX_FILE_SIZE
  }

  ghost predicate LogOk(crc: Checksum, es: seq<Entry>, size: nat) {
    && SizesFit(es)
    && (forall i | 0 <= i < |es| :: Offset(crc, es, i) < TWO32 && (Fits(es[i]) ==> Offset(crc, es, i + 1) <= size))
  }

  ghost predicate MaxtBounds(es: seq<Entry>, maxt: Int64) {
    forall e | e in es :: e.maxt <= maxt
  }

  /** The largest maxt of some entries, or 0 if none is above 0. */
  function MaxtOf(es: seq<Entry>): (m: Int64)
    ensures m >= 0
  {
    if es == [] then 0
    else
      var before, e := MaxtOf(es[..|es| - 1]), es[|es| - 1];
      if e.maxt > before then e.maxt else before
  }

  lemma {:induction false} MaxtOfReaches(es: seq<Entry>, t: Int64)
    ensures MaxtOf(es) >= t <==> t <= 0 || exists e :: e in es && e.maxt >= t
  {
    if es != [] {
      var before, e := es[..|es| - 1], es[|es| - 1];
      MaxtOfReaches(before, t);
      assert forall x :: x in es <==> x in before || x == e;
    }
  }

  lemma MaxtOfBounds(es: seq<Entry>)
    ensures MaxtBounds(es, MaxtOf(es))
  {
    hide MaxtOf;
    forall e | e in es ensures e.maxt <= MaxtOf(es) {
      MaxtOfReaches(es, e.maxt);
    }
  }

  lemma MaxtOfAppend(es: seq<Entry>, e: Entry)
    ensures MaxtOf(es + [e]) == if e.maxt > MaxtOf(es) then e.maxt else MaxtOf(es)
  {
    assert (es + [e])[..|es|] == es;
  }

  /** A recorded maxt is never negative, and never above what the entries of its file reach. */
  predicate RecordedOk(es: seq<Entry>, maxt: Int64) {
    0 <= maxt <= MaxtOf(es)
  }

  ghost predicate IsPending(crc: Checksum, file: nat, es: seq<Entry>, from: nat, ref: UInt64, i: nat) {
    from <= i < |es| && ref == ChunkRef(file, Offset(crc, es, i))
  }

  /** The chunk buffer holds exactly the chunks from position `from` on. */
  ghost predicate PendingIs(crc: Checksum, file: nat, es: seq<Entry>, from: nat, pending: map<UInt64, Chunk>) {
    && (forall ref, i: nat | IsPending(crc, file, es, from, ref, i) :: ref in pending && pending[ref] == es[i].chunk)
    && (forall ref | ref in pending :: exists i: nat :: IsPending(crc, file, es, from, ref, i))
  }

  /**
   The current file: whole records on disk, the rest of them in the write buffer, and exactly those in the chunk
   buffer.
   */
  ghost predicate CurrentOk(c: Config, st: State) {
    var s := st.store;
    && s.cur in st.log && s.cur in s.disk && s.cur in s.mapped && s.cur > 0
    && var es := st.log[s.cur];
    && st.flushed <= |es|
    && s.disk[s.cur] == FileBytes(c.crc, es[..st.flushed])
    && s.buffer == Records(c.crc, es[st.flushed..])
    && s.size == |FileBytes(c.crc, es)|
    && PendingIs(c.crc, s.cur, es, st.flushed, s.pending)
    && s.mapped[s.cur].size == MAX_FILE_SIZE
    && s.maxt == MaxtOf(es)
    && (forall f | f in s.disk :: f <= s.cur)
  }

  predicate HeaderOk(file: seq<Byte>) {
    |file| >= HEADER_SIZE && file[..5] == HEADER[..5]
  }

  ghost predicate FilesOk(c: Config, st: State) {
    var s := st.store;
    && s.mapped.Keys == s.disk.Keys && st.log.Keys <= s.disk.Keys && 0 !in st.log
    && Contiguous(s.disk.Keys)
    && (forall f | f in s.disk :: HeaderOk(s.disk[f]))
    && (forall f | f in st.log :: LogOk(c.crc, st.log[f], s.mapped[f].size))
    && (forall f | f in st.log && f != s.cur :: s.disk[f] == FileBytes(c.crc, st.log[f]))
    && (forall f | f in st.log :: RecordedOk(st.log[f], s.mapped[f].maxt))
  }

  ghost predicate Inv(c: Config, st: State) {
    var s := st.store;
    && !s.closed && FilesOk(c, st)
    && (s.open ==> CurrentOk(c, st))
    && (!s.open ==> s.cur == 0 && s.size == 0 && s.buffer == [] && s.pending == map[] && st.flushed == 0)
  }

  /** The recorded maxt of a finished file bounds its chunks. */
  ghost predicate Bounded(st: State, f: nat) {
    f in st.log && f in st.store.mapped && (f != st.store.cur ==> MaxtBounds(st.log[f], st.store.mapped[f].maxt))
  }

  ghost predicate AllBounded(st: State) {
    forall f | f in st.log :: Bounded(st, f)
  }

  /** Files with a recorded maxt that bounds their chunks keep such a maxt, and new files have one. */
  ghost predicate BoundsKept(st: State, st': State) {
    forall f | f in st'.log && (f in st.log ==> Bounded(st, f)) :: Bounded(st', f)
  }

  // ---------------------------------------------------------------- every operation keeps it

  lemma FlushKeeps(c: Config, st: State)
    requires Inv(c, st) && st.store.open
    ensures Inv(c, Flush(st))
    ensures BoundsKept(st, Flush(st))
  {
    hide LogOk, HeaderOk, Contiguous, Records, MaxtBounds, MaxtOf, RecordedOk;
    var s := st.store;
    var es := st.log[s.cur];
    assert es == es[..st.flushed] + es[st.flushed..];
    RecordsConcat(c.crc, es[..st.flushed], es[st.flushed..]);
    assert es[..|es|] == es && es[|es|..] == [];
    assert s.disk[s.cur] + s.buffer == HEADER + (Records(c.crc, es[..st.flushed]) + Records(c.crc, es[st.flushed..]));
    HeaderOfFile(c.crc, es);
    var st' := Flush(st);
    assert st'.store.disk.Keys == s.disk.Keys;
    assert FilesOk(c, st');
    assert st'.store.disk[s.cur] == FileBytes(c.crc, es[..|es|]);
    assert st'.store.buffer == Records(c.crc, es[|es|..]);
    assert CurrentOk(c, st');
  }

  lemma HeaderOfFile(crc: Checksum, es: seq<Entry>)
    ensures HeaderOk(FileBytes(crc, es)) && FileBytes(crc, []) == HEADER
  {
    assert FileBytes(crc, es)[..5] == HEADER[..5];
  }

  lemma FinalizeKeeps(c: Config, st: State)
    requires Inv(c, st)
    ensures var f := Finalize(st);
            && Inv(c, f) && f.store.disk.Keys == st.store.disk.Keys && f.log == st.log
            && f.store.buffer == [] && f.store.pending == map[]
            && (forall n | Bounded(st, n) :: n in f.store.mapped && MaxtBounds(f.log[n], f.store.mapped[n].maxt))
            && (forall n | n in f.log :: f.store.disk[n] == FileBytes(c.crc, f.log[n]))
  {
    hide LogOk, HeaderOk, Contiguous, Records, MaxtBounds, PendingIs, MaxtOf;
    if st.store.open {
      MaxtOfBounds(st.log[st.store.cur]);
      FlushKeeps(c, st);
      var es := st.log[st.store.cur];
      assert es[..|es|] == es;
    }
  }

  lemma OpenNextKeeps(c: Config, st: State)
    requires Inv(c, st) && st.store.buffer == [] && st.store.pending == map[]
    requires forall n | n in st.log :: st.store.disk[n] == FileBytes(c.crc, st.log[n])
    ensures Inv(c, OpenNext(st))
  {
    hide LogOk, HeaderOk, Contiguous, FileBytes, MaxtBounds, PendingIs, RecordedOk;
    var keys := st.store.disk.Keys;
    NextKeeps(keys);
    FreshFile(c.crc, Highest(keys) + 1);
    var st' := OpenNext(st);
    assert st'.store.disk.Keys == keys + {Highest(keys) + 1};
    assert FilesOk(c, st');
    assert st'.log[st'.store.cur] == [];
    assert CurrentOk(c, st');
  }

  lemma CutKeeps(c: Config, st: State)
    requires Inv(c, st)
    ensures Inv(c, Cut(st))
    ensures BoundsKept(st, Cut(st))
  {
    hide Finalize, LogOk, HeaderOk, Contiguous, FileBytes, MaxtBounds, PendingIs;
    FinalizeKeeps(c, st);
    OpenNextKeeps(c, Finalize(st));
    FreshFile(c.crc, 0);
  }

  /** The next file number leaves no gap. */
  lemma NextKeeps(keys: set<nat>)
    requires Contiguous(keys)
    ensures Highest(keys) + 1 !in keys && Contiguous(keys + {Highest(keys) + 1})
  {
  }

  lemma FreshFile(crc: Checksum, file: nat)
    ensures HeaderOk(HEADER) && LogOk(crc, [], MAX_FILE_SIZE) && MaxtBounds([], 0) && MaxtOf([]) == 0
            && RecordedOk([], 0)
    ensures FileBytes(crc, []) == HEADER && Records(crc, []) == [] && PendingIs(crc, file, [], 0, map[])
  {
  }

  /** The last position of a longer log. */
  lemma AppendRecords(crc: Checksum, es: seq<Entry>, from: nat, e: Entry)
    requires from <= |es|
    ensures var es' := es + [e];
            && es'[..from] == es[..from]
            && Records(crc, es'[from..]) == Records(crc, es[from..]) + Record(crc, e)
            && |FileBytes(crc, es')| == |FileBytes(crc, es)| + RecordSize(e)
            && Offset(crc, es', |es|) == |FileBytes(crc, es)|
            && Offset(crc, es', |es'|) == |FileBytes(crc, es')|
  {
    hide Record, RecordSize;
    var es' := es + [e];
    assert es'[from..] == es[from..] + [e];
    RecordsConcat(crc, es[from..], [e]);
    RecordsConcat(crc, es, [e]);
    assert es'[..|es|] == es && es'[..|es'|] == es';
  }

  lemma RefsDiffer(crc: Checksum, file: nat, es: seq<Entry>, i: nat, j: nat)
    requires i < j < |es| && Offset(crc, es, j) < TWO32
    ensures ChunkRef(file, Offset(crc, es, i)) != ChunkRef(file, Offset(crc, es, j))
  {
    hide Offset, ChunkRef, RefOffset, RefFile;
    OffsetsIncrease(crc, es, i, j);
    RefRoundTrip(file, Offset(crc, es, i));
    RefRoundTrip(file, Offset(crc, es, j));
  }

  lemma PendingAppend(crc: Checksum, file: nat, es: seq<Entry>, from: nat, pending: map<UInt64, Chunk>, e: Entry)
    requires from <= |es| && PendingIs(crc, file, es, from, pending) && |FileBytes(crc, es)| < TWO32
    ensures PendingIs(crc, file, es + [e], from, pending[ChunkRef(file, |FileBytes(crc, es)|) := e.chunk])
  {
    hide ChunkRef, Offset, FileBytes;
    var es' := es + [e];
    var last := ChunkRef(file, |FileBytes(crc, es)|);
    var pending' := pending[last := e.chunk];
    AppendRecords(crc, es, from, e);
    forall ref, i: nat | IsPending(crc, file, es', from, ref, i)
      ensures ref in pending' && pending'[ref] == es'[i].chunk
    {
      if i < |es| {
        OffsetOfPrefix(crc, es, [e], i);
        assert IsPending(crc, file, es, from, ref, i);
        RefsDiffer(crc, file, es', i, |es|);
      }
    }
    forall ref | ref in pending' ensures exists i: nat :: IsPending(crc, file, es', from, ref, i) {
      if ref == last {
        assert IsPending(crc, file, es', from, ref, |es|);
      } else {
        var i: nat :| IsPending(crc, file, es, from, ref, i);
        OffsetOfPrefix(crc, es, [e], i);
        assert IsPending(crc, file, es', from, ref, i);
      }
    }
  }

  lemma LogAppend(crc: Checksum, es: seq<Entry>, size: nat, e: Entry)
    requires LogOk(crc, es, size) && |e.chunk.bytes| < TWO32 && |FileBytes(crc, es)| < TWO32
    requires Fits(e) ==> |FileBytes(crc, es)| + RecordSize(e) <= size
    ensures LogOk(crc, es + [e], size)
  {
    hide Offset, FileBytes, RecordSize, Fits;
    var es' := es + [e];
    AppendRecords(crc, es, 0, e);
    forall i | 0 <= i < |es'|
      ensures |es'[i].chunk.bytes| < TWO32
      ensures Offset(crc, es', i) < TWO32 && (Fits(es'[i]) ==> Offset(crc, es', i + 1) <= size)
    {
      if i < |es| {
        OffsetOfPrefix(crc, es, [e], i);
        OffsetOfPrefix(crc, es, [e], i + 1);
        assert |es[i].chunk.bytes| < TWO32;
        assert es[i] == es'[i];
      }
    }
  }

  lemma AppendKeeps(c: Config, st: State, e: Entry)
    requires Inv(c, st) && st.store.open && |e.chunk.bytes| < TWO32 && st.store.size < TWO32
    requires Fits(e) ==> st.store.size + RecordSize(e) <= MAX_FILE_SIZE
    ensures Inv(c, Append(c, st, e))
    ensures BoundsKept(st, Append(c, st, e))
  {
    hide LogOk, HeaderOk, Contiguous, PendingIs, FileBytes, Records, RecordSize, ChunkRef, Fits, MaxtOf;
    var s := st.store;
    var es := st.log[s.cur];
    var es' := es + [e];
    LogAppend(c.crc, es, s.mapped[s.cur].size, e);
    PendingAppend(c.crc, s.cur, es, st.flushed, s.pending, e);
    AppendRecords(c.crc, es, st.flushed, e);
    MaxtOfAppend(es, e);
    var st' := Append(c, st, e);
    assert FilesOk(c, st');
    assert CurrentOk(c, st');
  }

  lemma MetaBound(e: Entry)
    requires |e.chunk.bytes| < TWO32
    ensures RecordSize(e) <= |e.chunk.bytes| + MAX_META_SIZE
  {
    UvarintSize(|e.chunk.bytes|);
  }

  /** Every entry of one log is in the other, at the same place. */
  ghost predicate LogGrows(log: map<nat, seq<Entry>>, log': map<nat, seq<Entry>>) {
    forall f | f in log :: f in log' && log[f] <= log'[f]
  }

  lemma CutGrows(c: Config, st: State)
    requires Inv(c, st)
    ensures Wf(st) && LogGrows(st.log, Cut(st).log) && Cut(st).store.cur !in st.log
    ensures !Cut(st).store.closed && Cut(st).store.buffer == []
  {
    hide LogOk, HeaderOk, PendingIs, FileBytes, Records, MaxtBounds, MaxtOf, RecordedOk;
    NextKeeps(st.store.disk.Keys);
    assert Finalize(st).store.disk.Keys == st.store.disk.Keys;
    assert Highest(st.store.disk.Keys) + 1 !in st.log;
  }

  lemma CutIsOpen(st: State)
    requires Wf(st)
    ensures Wf(Cut(st)) && Cut(st).store.open
  {
  }

  lemma ReadyKeeps(c: Config, st: State, e: Entry)
    requires Inv(c, st) && |e.chunk.bytes| < TWO32
    ensures var r := Ready(c, st, e);
            && Inv(c, r) && r.store.open && r.store.size < TWO32
            && (Fits(e) ==> r.store.size + RecordSize(e) <= MAX_FILE_SIZE)
            && (!Fits(e) ==> r.store.size + RecordSize(e) > MAX_FILE_SIZE)
            && BoundsKept(st, r) && LogGrows(st.log, r.log)
  {
    hide FilesOk, CurrentOk;
    MetaBound(e);
    var st1 := st;
    CutGrows(c, st);
    if ShouldCut(st.store, e) {
      CutKeeps(c, st);
      st1 := Cut(st);
    } else {
      CurrentHasHeader(c, st);
    }
    if FlushFirst(c, st1.store, e) {
      FlushKeeps(c, st1);
    }
  }

  lemma CurrentHasHeader(c: Config, st: State)
    requires Inv(c, st) && st.store.open
    ensures st.store.size >= HEADER_SIZE
  {
  }

  // ---------------------------------------------------------------- writing and reading back

  ghost predicate IsEntry(c: Config, log: map<nat, seq<Entry>>, file: nat, i: nat, ref: UInt64, e: Entry) {
    file in log && i < |log[file]| && log[file][i] == e && ref == ChunkRef(file, Offset(c.crc, log[file], i))
  }

  /** The store was given e, put it in this file, and answered with ref. */
  ghost predicate HeldIn(c: Config, st: State, file: nat, ref: UInt64, e: Entry) {
    exists i: nat :: IsEntry(c, st.log, file, i, ref, e)
  }

  ghost predicate Holds(c: Config, st: State, ref: UInt64, e: Entry) {
    exists file: nat :: HeldIn(c, st, file, ref, e)
  }

  /** The reference that WriteChunk returns. */
  function WriteRef(c: Config, st: State, e: Entry): UInt64
    requires Wf(st)
  {
    var s := Ready(c, st, e).store;
    ChunkRef(s.cur, s.size)
  }

  lemma LogGrowsKeeps(c: Config, st: State, st': State, file: nat, ref: UInt64, e: Entry)
    requires LogGrows(st.log, st'.log) && HeldIn(c, st, file, ref, e)
    ensures HeldIn(c, st', file, ref, e)
  {
    hide ChunkRef, Offset;
    var i: nat :| IsEntry(c, st.log, file, i, ref, e);
    var es, es' := st.log[file], st'.log[file];
    assert es' == es + es'[|es|..];
    OffsetOfPrefix(c.crc, es, es'[|es|..], i);
    assert IsEntry(c, st'.log, file, i, ref, e);
  }

  lemma AppendAdds(c: Config, st: State, e: Entry)
    requires Inv(c, st) && st.store.open && |e.chunk.bytes| < TWO32 && st.store.size < TWO32
    requires Fits(e) ==> st.store.size + RecordSize(e) <= MAX_FILE_SIZE
    ensures Wf(st) && st.store.cur in st.log && LogGrows(st.log, Append(c, st, e).log)
    ensures IsEntry(c, Append(c, st, e).log, st.store.cur, |st.log[st.store.cur]|,
                    ChunkRef(st.store.cur, st.store.size), e)
    ensures Append(c, st, e).log == st.log[st.store.cur := st.log[st.store.cur] + [e]]
  {
    hide ChunkRef, FilesOk, Offset, Records, FileBytes, PendingIs;
    var es := st.log[st.store.cur];
    AppendRecords(c.crc, es, |es|, e);
    assert es <= es + [e];
  }

  lemma GrowsTwice(a: map<nat, seq<Entry>>, b: map<nat, seq<Entry>>, c: map<nat, seq<Entry>>)
    requires LogGrows(a, b) && LogGrows(b, c)
    ensures LogGrows(a, c)
  {
  }

  /** WriteChunk keeps the invariant and every earlier entry, and adds its own under the reference it returns. */
  lemma WriteKeeps(c: Config, st: State, e: Entry)
    requires Inv(c, st) && |e.chunk.bytes| < TWO32
    ensures Wf(st)
    ensures var st' := Write(c, st, e);
            && Inv(c, st') && LogGrows(st.log, st'.log) && HeldIn(c, st', st'.store.cur, WriteRef(c, st, e), e)
            && Holds(c, st', WriteRef(c, st, e), e) && BoundsKept(st, st') && Bounded(st', st'.store.cur)
  {
    CutGrows(c, st);
    ReadyKeeps(c, st, e);
    var r := Ready(c, st, e);
    AppendKeeps(c, r, e);
    AppendAdds(c, r, e);
    var st1 := Append(c, r, e);
    GrowsTwice(st.log, r.log, st1.log);
    if FlushAfter(c, e) {
      FlushKeeps(c, st1);
    }
    hide *;
    var i := |r.log[r.store.cur]|;
    assert IsEntry(c, Write(c, st, e).log, r.store.cur, i, WriteRef(c, st, e), e);
  }

  // ---------------------------------------------------------------- where a chunk goes

  /** There is a current file with room for the chunk and 34 bytes around it, in 128 MiB. */
  predicate HasRoom(s: Store, e: Entry) {
    s.open && s.size + |e.chunk.bytes| + 34 <= 134_217_728
  }

  /**
   A chunk goes to the end of the current file if there is room, and otherwise is the first in a new file, numbered one
   above the largest; nothing else is written.
   */
  lemma WriteGoes(c: Config, st: State, e: Entry)
    requires Inv(c, st) && Wf(st)
    ensures var s, st' := st.store, Write(c, st, e);
            if HasRoom(s, e) then
              && s.cur in st.log && st'.store.cur == s.cur && st'.log == st.log[s.cur := st.log[s.cur] + [e]]
              && WriteRef(c, st, e) == ChunkRef(s.cur, s.size)
            else
              var n := Highest(s.disk.Keys) + 1;
              st'.store.cur == n && st'.log == st.log[n := [e]] && WriteRef(c, st, e) == ChunkRef(n, 8)
  {
    assert st.store.size == 0 <==> !st.store.open by {
      if st.store.open {
        CurrentHasHeader(c, st);
      }
    }
    hide Inv, Cut, Write, Ready, WriteRef, ChunkRef, Highest;
    CutGoes(st);
    ReadyGoes(c, st, e);
    PutGoes(c, st, e);
    FirstEntry(st.log, Highest(st.store.disk.Keys) + 1, e);
  }

  lemma PutGoes(c: Config, st: State, e: Entry)
    requires Wf(st) && Ready(c, st, e).store.open && Wf(Ready(c, st, e))
    ensures var r, st' := Ready(c, st, e), Write(c, st, e);
            && st'.store.cur == r.store.cur && st'.log == r.log[r.store.cur := r.log[r.store.cur] + [e]]
            && WriteRef(c, st, e) == ChunkRef(r.store.cur, r.store.size)
  {
    hide Ready, Append, Flush, ChunkRef;
    AppendGoes(c, Ready(c, st, e), e);
    FlushGoes(Append(c, Ready(c, st, e), e));
  }

  lemma ReadyGoes(c: Config, st: State, e: Entry)
    requires Wf(st) && (st.store.size == 0 <==> !st.store.open)
    ensures var st1, r := if HasRoom(st.store, e) then st else Cut(st), Ready(c, st, e);
            && Wf(r) && r.store.open && r.store.cur == st1.store.cur && r.store.size == st1.store.size
            && r.log == st1.log
  {
    hide Cut, Flush;
    CutGoes(st);
    var st1 := if HasRoom(st.store, e) then st else Cut(st);
    FlushGoes(st1);
  }

  lemma FlushGoes(st: State)
    requires Wf(st) && st.store.open
    ensures var f := Flush(st);
            Wf(f) && f.store.open && f.store.cur == st.store.cur && f.store.size == st.store.size && f.log == st.log
  {
  }

  lemma AppendGoes(c: Config, st: State, e: Entry)
    requires Wf(st) && st.store.open
    ensures var a := Append(c, st, e);
            && Wf(a) && a.store.open && a.store.cur == st.store.cur
            && a.log == st.log[st.store.cur := st.log[st.store.cur] + [e]]
  {
    hide Record, RecordSize, ChunkRef;
  }

  lemma FirstEntry(log: map<nat, seq<Entry>>, n: nat, e: Entry)
    ensures log[n := []][n := log[n := []][n] + [e]] == log[n := [e]]
  {
    assert log[n := []][n] + [e] == [e];
  }

  lemma CutGoes(st: State)
    requires Wf(st)
    ensures var st', n := Cut(st), Highest(st.store.disk.Keys) + 1;
            st'.store.cur == n && st'.log == st.log[n := []] && st'.store.size == 8 && st'.store.open && Wf(st')
  {
    hide Highest;
    assert Finalize(st).store.disk.Keys == st.store.disk.Keys;
  }

  /**
   How much of the file has reached the disk after a write: all of it if the chunk may not fit in the write buffer; all
   but the chunk if it no longer fits behind what is buffered; else what had reached it before.
   */
  lemma WriteFlushes(c: Config, st: State, e: Entry)
    requires Inv(c, st) && Wf(st)
    ensures var s, st', need := st.store, Write(c, st, e), |e.chunk.bytes| + 34;
            && st'.store.cur in st'.log
            && st'.flushed == if need >= c.bufferSize then |st'.log[st'.store.cur]|
                              else if !HasRoom(s, e) then 0
                              else if |s.buffer| + need > c.bufferSize then |st'.log[st'.store.cur]| - 1
                              else st.flushed
  {
    assert st.store.size == 0 <==> !st.store.open by {
      if st.store.open {
        CurrentHasHeader(c, st);
      }
    }
    CutEmpty(c, st);
    hide Inv, Record, RecordSize, ChunkRef, Finalize, NextFile;
  }

  lemma CutEmpty(c: Config, st: State)
    requires Inv(c, st) && Wf(st)
    ensures Cut(st).store.buffer == [] && Cut(st).flushed == 0
  {
    CutGrows(c, st);
  }

  /** Truncate starts a new file if and only if the current one holds a chunk. */
  lemma SettledIff(c: Config, st: State)
    requires Inv(c, st) && Wf(st)
    ensures st.store.open ==> st.store.cur in st.log
    ensures Settled(st) == if st.store.open && st.log[st.store.cur] != [] then Cut(st) else st
  {
    if st.store.open {
      var es := st.log[st.store.cur];
      FileSize(c.crc, es);
    }
    hide Cut, Records, FilesOk, PendingIs, MaxtOf;
  }

  lemma FileSize(crc: Checksum, es: seq<Entry>)
    ensures |FileBytes(crc, es)| > HEADER_SIZE <==> es != []
  {
    if es != [] {
      Positive(es[|es| - 1]);
    }
  }

  /** The magic number 0x0130BC91 and the format version 1, at the start of every file. */
  lemma HeaderMeans(file: seq<Byte>)
    ensures HeaderOk(file)
            <==> |file| >= 8 && file[0] == 0x01 && file[1] == 0x30 && file[2] == 0xBC && file[3] == 0x91 && file[4] == 1
  {
    if |file| >= 8 {
      assert file[..5] == [file[0], file[1], file[2], file[3], file[4]];
      assert HEADER[..5] == [0x01, 0x30, 0xBC, 0x91, 1];
    }
  }

  /**
   What Chunk answers for an entry: its chunk, exactly when it is in the chunk buffer or wholly inside the mapping.
   */
  lemma FetchEntry(c: Config, st: State, file: nat, i: nat)
    requires Inv(c, st) && file in st.log && i < |st.log[file]| && file < TWO32 && st.store.cur < TWO32
    ensures file in st.store.mapped && Offset(c.crc, st.log[file], i + 1) >= 0
    ensures var e := st.log[file][i];
            var r := Fetch(c, st.store, ChunkRef(file, Offset(c.crc, st.log[file], i)));
            var buffered := file == st.store.cur && i >= st.flushed;
            var inside := Offset(c.crc, st.log[file], i + 1) <= st.store.mapped[file].size;
            if buffered || (inside && e.chunk.encoding == ENC_XOR) then r == Found(e.chunk) else !r.Found?
  {
    var es, s := st.log[file], st.store;
    hide Inv, Fetch, ReadChunk, Mapped, FileBytes, ChunkRef, Offset, PendingIs, SizesFit;
    FetchGoes(c, s, file, Offset(c.crc, es, i));
    if file != s.cur {
      ReadFromFile(c.crc, es, i, s.mapped[file].size);
    } else if i < st.flushed {
      NotPending(c.crc, file, es, st.flushed, s.pending, i);
      ReadFromPrefix(c.crc, es, st.flushed, i, s.mapped[file].size);
    } else {
      IsInBuffer(c.crc, file, es, st.flushed, s.pending, i);
    }
  }

  /** Where Chunk looks for a reference. */
  lemma FetchGoes(c: Config, s: Store, file: nat, offset: nat)
    requires !s.closed && file in s.mapped && file in s.disk && file < TWO32 && offset < TWO32
    ensures var ref := ChunkRef(file, offset);
            Fetch(c, s, ref) == if file == s.cur && ref in s.pending then Found(s.pending[ref])
                                else ReadChunk(c.crc, Mapped(s.disk[file], s.mapped[file].size), offset)
  {
    hide ChunkRef, RefFile, RefOffset, ReadChunk, Mapped;
    RefRoundTrip(file, offset);
  }

  lemma IsInBuffer(crc: Checksum, file: nat, es: seq<Entry>, from: nat, pending: map<UInt64, Chunk>, i: nat)
    requires from <= i < |es| && PendingIs(crc, file, es, from, pending)
    ensures var ref := ChunkRef(file, Offset(crc, es, i)); ref in pending && pending[ref] == es[i].chunk
  {
    hide ChunkRef, Offset;
    assert IsPending(crc, file, es, from, ChunkRef(file, Offset(crc, es, i)), i);
  }

  /** Reading an entry when only the first `flushed` ones are on disk. */
  lemma ReadFromPrefix(crc: Checksum, es: seq<Entry>, flushed: nat, i: nat, size: nat)
    requires i < flushed <= |es| && SizesFit(es)
    ensures var r := ReadChunk(crc, Mapped(FileBytes(crc, es[..flushed]), size), Offset(crc, es, i));
            if Offset(crc, es, i + 1) <= size && es[i].chunk.encoding == ENC_XOR then r == Found(es[i].chunk)
            else !r.Found?
  {
    hide ReadChunk, Mapped, FileBytes, Offset;
    var on := es[..flushed];
    assert es == on + es[flushed..];
    OffsetOfPrefix(crc, on, es[flushed..], i);
    OffsetOfPrefix(crc, on, es[flushed..], i + 1);
    assert forall j | 0 <= j < |on| :: on[j] == es[j];
    ReadFromFile(crc, on, i, size);
  }

  lemma NotPending(crc: Checksum, file: nat, es: seq<Entry>, from: nat, pending: map<UInt64, Chunk>, i: nat)
    requires i < from <= |es| && PendingIs(crc, file, es, from, pending)
    requires forall j | 0 <= j < |es| :: Offset(crc, es, j) < TWO32
    ensures ChunkRef(file, Offset(crc, es, i)) !in pending
  {
    hide ChunkRef, Offset;
    var ref := ChunkRef(file, Offset(crc, es, i));
    if ref in pending {
      var j: nat :| IsPending(crc, file, es, from, ref, j);
      RefsDiffer(crc, file, es, i, j);
    }
  }

  /**
   Where an answer of Chunk comes from: the chunk buffer, for a reference into the current file; or the mapping of the
   file, from the offset on, as the data of a record whose checksum is right.
   */
  ghost predicate Authentic(c: Config, s: Store, ref: UInt64, chunk: Chunk) {
    var file, offset := RefFile(ref), RefOffset(ref);
    || (file == s.cur && ref in s.pending && s.pending[ref] == chunk)
    || exists head, sum ::
         && file in s.mapped && file in s.disk && offset <= s.mapped[file].size
         && BeginsWith(Mapped(s.disk[file], s.mapped[file].size)[offset..], head, chunk.bytes, sum)
         && sum == c.crc(head + chunk.bytes) && head[24] == chunk.encoding == 1
  }

  lemma FetchVerified(c: Config, s: Store, ref: UInt64)
    requires Fetch(c, s, ref).Found?
    ensures !s.closed && Authentic(c, s, ref, Fetch(c, s, ref).chunk)
  {
    hide ReadTail, Mapped, BeginsWith, RefFile, RefOffset;
    var file, offset := RefFile(ref), RefOffset(ref);
    if !(file == s.cur && ref in s.pending) {
      ReadVerified(c.crc, Mapped(s.disk[file], s.mapped[file].size)[offset..]);
    }
  }

  /**
   A record that was damaged is refused: whatever its bytes say, if the stored checksum is not theirs, Chunk answers
   that the file is corrupt, unless the chunk is still in the chunk buffer.
   */
  lemma FetchDamaged(c: Config, s: Store, ref: UInt64, head: seq<Byte>, data: seq<Byte>, sum: Word)
    requires !s.closed && !(RefFile(ref) == s.cur && ref in s.pending)
    requires RefFile(ref) in s.mapped && RefFile(ref) in s.disk && RefOffset(ref) <= s.mapped[RefFile(ref)].size
    requires BeginsWith(Mapped(s.disk[RefFile(ref)], s.mapped[RefFile(ref)].size)[RefOffset(ref)..], head, data, sum)
    requires sum != c.crc(head + data)
    ensures Fetch(c, s, ref) == Corruption
  {
    ReadStored(c.crc, Mapped(s.disk[RefFile(ref)], s.mapped[RefFile(ref)].size)[RefOffset(ref)..], head, data, sum);
    hide ReadTail, Mapped, BeginsWith, RefFile, RefOffset;
  }

  /** The answers for a reference that no file has, or of a closed store. */
  lemma FetchNothing(c: Config, s: Store, ref: UInt64)
    ensures s.closed ==> Fetch(c, s, ref) == MapperClosed
    ensures !s.closed && RefFile(ref) != s.cur && (RefFile(ref) !in s.mapped || RefFile(ref) !in s.disk) ==>
              Fetch(c, s, ref) == Corruption
    ensures !s.closed && RefFile(ref) != s.cur && RefFile(ref) in s.mapped && RefFile(ref) in s.disk
            && RefOffset(ref) + 29 > s.mapped[RefFile(ref)].size
            ==> Fetch(c, s, ref) == Corruption
  {
    hide ReadTail, Mapped, RefFile, RefOffset;
  }

  /** Read your writes: Chunk returns every chunk that was written, for every reference that was returned. */
  lemma ReadYourWrites(c: Config, st: State, ref: UInt64, e: Entry)
    requires Inv(c, st) && Highest(st.store.disk.Keys) < TWO32 && Holds(c, st, ref, e)
    requires Fits(e) && e.chunk.encoding == ENC_XOR
    ensures Fetch(c, st.store, ref) == Found(e.chunk)
  {
    hide Fetch, ChunkRef, Offset, Fits, CurrentOk;
    var file: nat :| HeldIn(c, st, file, ref, e);
    var i: nat :| IsEntry(c, st.log, file, i, ref, e);
    CurrentKnown(c, st);
    FetchEntry(c, st, file, i);
  }

  lemma CurrentKnown(c: Config, st: State)
    requires Inv(c, st)
    ensures st.store.cur <= Highest(st.store.disk.Keys)
  {
  }

  /** A chunk can be read after WriteChunk if and only if its record fits in a file of the largest size. */
  lemma ReadableIff(c: Config, st: State, e: Entry)
    requires Inv(c, st) && |e.chunk.bytes| < TWO32 && e.chunk.encoding == ENC_XOR
    requires c.bufferSize <= 8 * 1024 * 1024
    requires Wf(st) && Highest(Write(c, st, e).store.disk.Keys) < TWO32
    ensures Fetch(c, Write(c, st, e).store, WriteRef(c, st, e)) == Found(e.chunk) <==> Fits(e)
  {
    WriteKeeps(c, st, e);
    var st' := Write(c, st, e);
    if Fits(e) {
      ReadYourWrites(c, st', WriteRef(c, st, e), e);
    } else {
      TooLarge(c, st, e);
    }
  }

  lemma TooLarge(c: Config, st: State, e: Entry)
    requires Inv(c, st) && |e.chunk.bytes| < TWO32 && Wf(st) && !Fits(e)
    requires c.bufferSize <= 8 * 1024 * 1024 && Highest(Write(c, st, e).store.disk.Keys) < TWO32
    ensures !Fetch(c, Write(c, st, e).store, WriteRef(c, st, e)).Found?
  {
    MetaBound(e);
    WriteKeeps(c, st, e);
    ReadyKeeps(c, st, e);
    var r := Ready(c, st, e);
    AppendKeeps(c, r, e);
    CurrentKnown(c, Write(c, st, e));
    TooLargeAppended(c, r, e);
  }

  lemma TooLargeAppended(c: Config, st: State, e: Entry)
    requires Inv(c, st) && st.store.open && |e.chunk.bytes| < TWO32 && !Fits(e) && st.store.cur < TWO32
    requires st.store.size < TWO32 && st.store.size + RecordSize(e) > MAX_FILE_SIZE
    ensures !Fetch(c, Flush(Append(c, st, e)).store, ChunkRef(st.store.cur, st.store.size)).Found?
  {
    hide Fetch, ChunkRef, Offset, FileBytes, Records, RecordSize, Fits, LogOk, MaxtBounds, PendingIs, HeaderOk,
         Contiguous, MaxtOf, RecordedOk;
    AppendKeeps(c, st, e);
    FlushKeeps(c, Append(c, st, e));
    var es := st.log[st.store.cur];
    AppendRecords(c.crc, es, |es|, e);
    FetchEntry(c, Flush(Append(c, st, e)), st.store.cur, |es|);
  }
}
