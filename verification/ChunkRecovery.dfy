/**
 Stopping, reopening and scanning a head chunk directory, and whole runs of the store.
 */
module ChunkRecovery {
  import opened Bits
  import opened ChunkRecord
  import opened ChunkScan
  import opened ChunkStore
  import opened ChunkTruncate
  import opened Keys

  // ---------------------------------------------------------------- IterateAllChunks

  /** The bytes the scan looks at: the current file ends where its written size says, unflushed bytes show as zeros. */
  function View(s: Store, f: nat): seq<Byte>
    requires f in s.disk && f in s.mapped
  {
    Mapped(s.disk[f], if f == s.cur then s.size else s.mapped[f].size)
  }

  function Views(s: Store): map<nat, seq<Byte>> {
    map f | f in s.mapped && f in s.disk :: View(s, f)
  }

  function IterateOutcome(c: Config, s: Store): Outcome
    requires s.mapped.Keys == s.disk.Keys
  {
    ScanAll(c.crc, Ascending(s.mapped.Keys), Views(s), Maxts(s.mapped))
  }

  function WithMaxts(mapped: map<nat, MappedFile>, maxts: map<nat, Int64>): map<nat, MappedFile>
    requires maxts.Keys == mapped.Keys
  {
    map f | f in mapped :: mapped[f].(maxt := maxts[f])
  }

  function Iterate(c: Config, st: State): State
    requires st.store.mapped.Keys == st.store.disk.Keys
  {
    var s := st.store;
    st.(store := s.(mapped := WithMaxts(s.mapped, IterateOutcome(c, s).maxts), maxtSet := true))
  }

  /** The loop over the files: `files` are left, `reports` and the maxts of `mapped` are what was found so far. */
  ghost predicate Progress(c: Config, s: Store, mapped: map<nat, MappedFile>, files: seq<nat>, reports: seq<Report>) {
    && s.mapped.Keys == s.disk.Keys && SameSizes(s.mapped, mapped) && (forall f | f in files :: f in mapped)
    && var rest := ScanAll(c.crc, files, Views(s), Maxts(mapped));
       IterateOutcome(c, s) == Outcome(reports + rest.reports, rest.maxts, rest.ok)
  }

  lemma ProgressStart(c: Config, s: Store)
    requires s.mapped.Keys == s.disk.Keys
    ensures Progress(c, s, s.mapped, Ascending(s.mapped.Keys), [])
  {
    hide ScanAll;
  }

  lemma ProgressFile(c: Config, s: Store, mapped: map<nat, MappedFile>, files: seq<nat>, reports: seq<Report>)
    requires Progress(c, s, mapped, files, reports) && files != []
    ensures files[0] in mapped && files[0] in s.mapped && files[0] in s.disk
            && mapped[files[0]].size == s.mapped[files[0]].size
  {
  }

  lemma ProgressStep(c: Config, s: Store, mapped: map<nat, MappedFile>, files: seq<nat>, reports: seq<Report>,
                     found: seq<Report>, fine: bool)
    requires Progress(c, s, mapped, files, reports) && files != [] && s.mapped.Keys == s.disk.Keys
    requires files[0] in mapped && files[0] in s.mapped
             && Scan(found, fine) == ScanFile(c.crc, files[0], View(s, files[0]))
    ensures var f := files[0];
            var mapped' := mapped[f := mapped[f].(maxt := Raise(mapped[f].maxt, found))];
            if fine then Progress(c, s, mapped', files[1..], reports + found)
            else var o := IterateOutcome(c, s);
                 && o.reports == reports + found && !o.ok && o.maxts.Keys == s.mapped.Keys
                 && mapped' == WithMaxts(s.mapped, o.maxts)
  {
    hide ScanAll, ScanFile, Raise, WithMaxts, IterateOutcome, View;
    var f := files[0];
    var m := Raise(mapped[f].maxt, found);
    var mapped' := mapped[f := mapped[f].(maxt := m)];
    assert Maxts(mapped') == Maxts(mapped)[f := m];
    ScanAllStep(c.crc, files, Views(s), Maxts(mapped), reports);
    SameMapping(s.mapped, mapped');
  }

  lemma ProgressEnd(c: Config, s: Store, mapped: map<nat, MappedFile>, reports: seq<Report>)
    requires Progress(c, s, mapped, [], reports) && s.mapped.Keys == s.disk.Keys
    ensures var o := IterateOutcome(c, s);
            && o.reports == reports && o.ok && o.maxts.Keys == s.mapped.Keys && mapped == WithMaxts(s.mapped, o.maxts)
  {
    hide WithMaxts, IterateOutcome;
    SameMapping(s.mapped, mapped);
  }

  predicate FlushOk(st: State) {
    st.store.cur in st.log ==> st.flushed <= |st.log[st.store.cur]|
  }

  ghost predicate SameSizes(before: map<nat, MappedFile>, after: map<nat, MappedFile>) {
    after.Keys == before.Keys && forall f | f in after :: after[f].size == before[f].size
  }

  lemma SameMapping(before: map<nat, MappedFile>, after: map<nat, MappedFile>)
    requires SameSizes(before, after)
    ensures Maxts(after).Keys == before.Keys && after == WithMaxts(before, Maxts(after))
  {
    var m := WithMaxts(before, Maxts(after));
    assert forall f | f in after :: m[f] == after[f];
  }

  /** What has reached the disk. */
  function Visible(st: State, f: nat): seq<Entry>
    requires f in st.log && FlushOk(st)
  {
    if f == st.store.cur then st.log[f][..st.flushed] else st.log[f]
  }

  function VisibleLog(st: State): map<nat, seq<Entry>>
    requires FlushOk(st)
  {
    map f | f in st.log :: Visible(st, f)
  }

  lemma FlushedPart(c: Config, st: State)
    requires Inv(c, st)
    ensures Wf(st) && st.store.mapped.Keys == st.store.disk.Keys && st.log.Keys <= st.store.disk.Keys
    ensures FlushOk(st)
  {
  }

  /** No file is longer than its mapping. */
  ghost predicate WithinMappings(s: Store) {
    forall f | f in s.disk && f in s.mapped && f != s.cur :: |s.disk[f]| <= s.mapped[f].size
  }

  lemma VisibleFile(c: Config, st: State, f: nat)
    requires Inv(c, st) && f in st.log && FlushOk(st)
    ensures f in st.store.disk && st.store.disk[f] == FileBytes(c.crc, Visible(st, f)) && SizesFit(Visible(st, f))
    ensures f == st.store.cur ==> |st.store.disk[f]| <= st.store.size
  {
    hide Records, PendingIs, MaxtBounds, HeaderOk, Contiguous, MaxtOf, RecordedOk;
    assert forall i | 0 <= i < |Visible(st, f)| :: Visible(st, f)[i] == st.log[f][i];
    if f == st.store.cur {
      var es := st.log[f];
      assert es == es[..st.flushed] + es[st.flushed..];
      RecordsConcat(c.crc, es[..st.flushed], es[st.flushed..]);
    }
  }

  lemma ViewShows(c: Config, st: State, f: nat)
    requires Inv(c, st) && f in st.log && WithinMappings(st.store)
    ensures FlushOk(st) && f in st.store.disk && f in st.store.mapped
    ensures Shows(c.crc, View(st.store, f), Visible(st, f))
  {
    FlushedPart(c, st);
    VisibleFile(c, st, f);
  }

  /** The scan records nothing that a file does not reach. */
  lemma IterateRecorded(c: Config, st: State, f: nat)
    requires Inv(c, st) && f in st.log
    ensures st.store.mapped.Keys == st.store.disk.Keys && f in IterateOutcome(c, st.store).maxts
    ensures RecordedOk(st.log[f], IterateOutcome(c, st.store).maxts[f])
  {
    FlushedPart(c, st);
    VisibleFile(c, st, f);
    RecordedNow(c, st, f);
    hide Inv, FileBytes, IterateOutcome, ScanFile, Reached, Raise, MaxtOf;
    var s, es := st.store, Visible(st, f);
    OutcomeKeys(c, s);
    Recorded(c, s, f);
    var rs := ScanFile(c.crc, f, View(s, f)).reports;
    ScanFindsPrefix(c.crc, f, es, |View(s, f)|);
    RaiseWithin(c.crc, f, s.mapped[f].maxt, rs, es, st.log[f]);
  }

  lemma RecordedNow(c: Config, st: State, f: nat)
    requires Inv(c, st) && f in st.log
    ensures f in st.store.mapped && RecordedOk(st.log[f], st.store.mapped[f].maxt)
  {
    hide RecordedOk, LogOk, HeaderOk, Contiguous, FileBytes, CurrentOk;
  }

  lemma RaiseWithin(crc: Checksum, file: nat, m: Int64, rs: seq<Report>, on: seq<Entry>, es: seq<Entry>)
    requires rs <= FileReports(crc, file, HEADER_SIZE, on) && on <= es && RecordedOk(es, m)
    ensures RecordedOk(es, Raise(m, rs))
  {
    hide FileReports, Raise, MaxtOf;
    var t := Raise(m, rs);
    RaiseReaches(m, rs, t);
    MaxtOfReaches(es, t);
    if m < t {
      var i :| 0 <= i < |rs| && rs[i].maxt >= t;
      ReportMaxts(crc, file, HEADER_SIZE, on, i);
      assert es[i] == on[i] && es[i] in es;
    }
  }

  lemma IterateKeeps(c: Config, st: State)
    requires Inv(c, st)
    ensures st.store.mapped.Keys == st.store.disk.Keys && Inv(c, Iterate(c, st))
    ensures BoundsKept(st, Iterate(c, st))
  {
    FlushedPart(c, st);
    forall f | f in st.log
      ensures f in IterateOutcome(c, st.store).maxts && RecordedOk(st.log[f], IterateOutcome(c, st.store).maxts[f])
    {
      IterateRecorded(c, st, f);
    }
    IterateRaises(c, st.store);
    IterateSameFiles(c, st);
    hide IterateOutcome;
  }

  lemma IterateRaises(c: Config, s: Store)
    requires s.mapped.Keys == s.disk.Keys
    ensures IterateOutcome(c, s).maxts.Keys == s.mapped.Keys
    ensures forall f | f in s.mapped :: IterateOutcome(c, s).maxts[f] >= s.mapped[f].maxt
  {
    hide ScanAll;
  }

  lemma IterateSameFiles(c: Config, st: State)
    requires Inv(c, st) && st.store.mapped.Keys == st.store.disk.Keys
    requires forall f | f in st.log ::
               f in IterateOutcome(c, st.store).maxts && RecordedOk(st.log[f], IterateOutcome(c, st.store).maxts[f])
    ensures Inv(c, Iterate(c, st))
  {
    hide RecordedOk, MaxtOf, LogOk, HeaderOk, Contiguous, FileBytes, Records, PendingIs, IterateOutcome;
    OutcomeKeys(c, st.store);
  }

  /** Every file of the store is known, and recoverable. */
  ghost predicate AllRecover(c: Config, st: State)
    requires FlushOk(st) && st.log.Keys <= st.store.disk.Keys && st.log.Keys <= st.store.mapped.Keys
  {
    forall f | f in st.log :: Recovers(c.crc, View(st.store, f), Visible(st, f))
  }

  lemma ViewsShow(c: Config, st: State)
    requires Inv(c, st) && WithinMappings(st.store)
    ensures FlushOk(st) && st.log.Keys <= st.store.mapped.Keys == st.store.disk.Keys
    ensures forall f | f in st.log ::
              f in Views(st.store) && f in Maxts(st.store.mapped) && Shows(c.crc, Views(st.store)[f], VisibleLog(st)[f])
              && Views(st.store)[f] == View(st.store, f) && VisibleLog(st)[f] == Visible(st, f)
  {
    FlushedPart(c, st);
    hide FilesOk, CurrentOk, View, Shows, WithinMappings;
    forall f | f in st.log ensures Shows(c.crc, View(st.store, f), Visible(st, f)) {
      ViewShows(c, st, f);
    }
  }

  /** The zeros that the scan sees behind a file's records: unflushed bytes, or the rest of a larger mapping. */
  function Padding(s: Store, f: nat): int
    requires f in s.disk && f in s.mapped
  {
    if s.open && f == s.cur then |s.buffer| else s.mapped[f].size - |s.disk[f]|
  }

  lemma RecoversIff(c: Config, st: State, f: nat)
    requires Inv(c, st) && f in st.log && WithinMappings(st.store)
    ensures FlushOk(st) && f in st.store.disk && f in st.store.mapped && Padding(st.store, f) >= 0
    ensures Recovers(c.crc, View(st.store, f), Visible(st, f)) <==> Recoverable(Visible(st, f), Padding(st.store, f))
  {
    FlushedPart(c, st);
    VisibleFile(c, st, f);
    hide FileBytes, Recoverable;
    if f == st.store.cur {
      CurrentPadding(c, st);
    }
  }

  lemma CurrentPadding(c: Config, st: State)
    requires Inv(c, st) && st.store.cur in st.log
    ensures st.store.cur in st.store.disk && st.store.size == |st.store.disk[st.store.cur]| + |st.store.buffer|
  {
    hide Records, PendingIs, MaxtBounds, LogOk, HeaderOk, Contiguous, MaxtOf, RecordedOk;
    var es := st.log[st.store.cur];
    assert es == es[..st.flushed] + es[st.flushed..];
    RecordsConcat(c.crc, es[..st.flushed], es[st.flushed..]);
  }

  /**
   The scan succeeds and reports exactly what has reached the disk, in writing order, if and only if all files recover:
   in no file an entry has all three ids zero, or the last record with the zeros behind it is shorter than the largest
   record head.
   */
  lemma IterateReports(c: Config, st: State)
    requires Inv(c, st) && st.log.Keys == st.store.disk.Keys && WithinMappings(st.store)
    ensures FlushOk(st) && st.store.mapped.Keys == st.store.disk.Keys
    ensures var o := IterateOutcome(c, st.store);
            o.ok && o.reports == AllReports(c.crc, Ascending(st.log.Keys), VisibleLog(st)) <==> AllRecover(c, st)
    ensures AllRecover(c, st)
            <==> forall f | f in st.log ::
                   Padding(st.store, f) >= 0 && Recoverable(Visible(st, f), Padding(st.store, f))
  {
    ViewsShow(c, st);
    forall f | f in st.log
      ensures Padding(st.store, f) >= 0
              && (Recovers(c.crc, View(st.store, f), Visible(st, f))
                  <==> Recoverable(Visible(st, f), Padding(st.store, f)))
    {
      RecoversIff(c, st, f);
    }
    hide Inv, View, Views, VisibleLog, Maxts, Shows, Recovers, WithinMappings, ScanAll, AllReports;
    ScanAllReports(c.crc, Ascending(st.log.Keys), Views(st.store), Maxts(st.store.mapped), VisibleLog(st));
    assert forall f | f in st.log :: f in Ascending(st.log.Keys);
  }

  lemma BoundsOne(c: Config, st: State, f: nat, i: nat)
    requires Inv(c, st) && st.log.Keys == st.store.disk.Keys && WithinMappings(st.store)
    requires FlushOk(st) && st.store.mapped.Keys == st.store.disk.Keys && AllRecover(c, st)
    requires f in st.log && f != st.store.cur && i < |st.log[f]|
    ensures f in Iterate(c, st).store.mapped && Iterate(c, st).store.mapped[f].maxt >= st.log[f][i].maxt
  {
    ViewsShow(c, st);
    assert VisibleLog(st)[f] == st.log[f];
    hide Inv, View, Views, VisibleLog, Maxts, Shows, Recovers, WithinMappings, ScanAll, Ascending;
    ScanAllBounds(c.crc, Ascending(st.log.Keys), Views(st.store), Maxts(st.store.mapped), VisibleLog(st), f, i);
  }

  /** Then the recorded maxt of every finished file bounds its chunks. */
  lemma IterateBounds(c: Config, st: State)
    requires Inv(c, st) && st.log.Keys == st.store.disk.Keys && WithinMappings(st.store)
    requires FlushOk(st) && st.store.mapped.Keys == st.store.disk.Keys && AllRecover(c, st)
    ensures AllBounded(Iterate(c, st))
  {
    hide Inv, AllRecover, WithinMappings, IterateOutcome;
    forall f, e | f in st.log && f != st.store.cur && e in st.log[f]
      ensures Iterate(c, st).store.mapped[f].maxt >= e.maxt
    {
      var i :| 0 <= i < |st.log[f]| && st.log[f][i] == e;
      BoundsOne(c, st, f, i);
    }
  }

  // ---------------------------------------------------------------- stopping and reopening

  /** repairLastChunkFile: an empty last file is removed. */
  function Repair(files: map<nat, seq<Byte>>): map<nat, seq<Byte>> {
    var last := Highest(files.Keys);
    if last > 0 && files[last] == [] then files - {last} else files
  }

  /** What is removed is the file with the largest number, if that is not 0 and the file is empty. */
  lemma RepairMeans(files: map<nat, seq<Byte>>, f: nat)
    ensures f in Repair(files)
            <==> f in files && !(f > 0 && files[f] == [] && forall g | g in files :: g <= f)
    ensures f in Repair(files) ==> Repair(files)[f] == files[f]
  {
  }

  /** The checks of openMMapFiles. */
  ghost predicate Openable(files: map<nat, seq<Byte>>) {
    Contiguous(files.Keys) && forall f | f in files :: HeaderOk(files[f])
  }

  /** NewChunkDiskMapper on files that pass the checks; log is what is known about them. */
  function Opened(files: map<nat, seq<Byte>>, log: map<nat, seq<Entry>>): State {
    State(Store(files, map f | f in files :: MappedFile(|files[f]|, 0), false, 0, 0, 0, [], map[], false, false), log,
          0)
  }

  ghost predicate Known(c: Config, files: map<nat, seq<Byte>>, log: map<nat, seq<Entry>>) {
    && log.Keys <= files.Keys && 0 !in log
    && forall f | f in log :: files[f] == FileBytes(c.crc, log[f]) && LogOk(c.crc, log[f], |files[f]|)
  }

  lemma OpenedInv(c: Config, files: map<nat, seq<Byte>>, log: map<nat, seq<Entry>>)
    requires Openable(files) && Known(c, files, log)
    ensures Inv(c, Opened(files, log)) && WithinMappings(Opened(files, log).store)
  {
    hide LogOk, HeaderOk, Contiguous, FileBytes;
  }

  /** Close, or nothing at all when the process dies: the buffer is flushed if there is a current file. */
  function Closing(st: State): State
    requires Wf(st)
  {
    if st.store.open then Flush(st) else st
  }

  lemma VisibleLogOk(c: Config, st: State, f: nat)
    requires Inv(c, st) && f in st.log
    ensures FlushOk(st) && f in st.store.disk
    ensures st.store.disk[f] == FileBytes(c.crc, Visible(st, f))
    ensures LogOk(c.crc, Visible(st, f), |st.store.disk[f]|)
  {
    FlushedPart(c, st);
    VisibleFile(c, st, f);
    hide FileBytes, CurrentOk, Records, Fits, LogOk, PendingIs;
    PrefixOk(c.crc, st.log[f], Visible(st, f), st.store.mapped[f].size);
  }

  lemma PrefixOk(crc: Checksum, es: seq<Entry>, on: seq<Entry>, size: nat)
    requires LogOk(crc, es, size) && on <= es
    ensures LogOk(crc, on, |FileBytes(crc, on)|)
  {
    hide FileBytes, Offset, Fits;
    var rest := es[|on|..];
    assert es == on + rest;
    forall i | 0 <= i < |on|
      ensures |on[i].chunk.bytes| < TWO32
      ensures Offset(crc, on, i) < TWO32 && (Fits(on[i]) ==> Offset(crc, on, i + 1) <= |FileBytes(crc, on)|)
    {
      OffsetOfPrefix(crc, on, rest, i);
      RecordAt(crc, on, i);
      assert es[i] == on[i];
    }
  }

  lemma VisibleKnown(c: Config, st: State)
    requires Inv(c, st)
    ensures FlushOk(st) && Known(c, st.store.disk, VisibleLog(st))
  {
    FlushedPart(c, st);
    assert 0 !in st.log;
    hide LogOk, FileBytes, Inv;
    forall f | f in st.log
      ensures st.store.disk[f] == FileBytes(c.crc, Visible(st, f)) && LogOk(c.crc, Visible(st, f), |st.store.disk[f]|)
    {
      VisibleLogOk(c, st, f);
    }
  }

  /** At any moment between two calls the directory can be opened again, and holds what has been flushed. */
  lemma Reopens(c: Config, st: State)
    requires Inv(c, st)
    ensures FlushOk(st) && Repair(st.store.disk) == st.store.disk && Openable(st.store.disk)
    ensures Known(c, st.store.disk, VisibleLog(st))
    ensures Inv(c, Opened(st.store.disk, VisibleLog(st))) && WithinMappings(Opened(st.store.disk, VisibleLog(st)).store)
  {
    VisibleKnown(c, st);
    hide LogOk, FileBytes, CurrentOk, Contiguous, Known, VisibleLog;
    OpenedInv(c, st.store.disk, VisibleLog(st));
  }

  /** Also when the file that cut was creating is left behind empty. */
  lemma ReopensAfterCut(c: Config, st: State)
    requires Inv(c, st)
    ensures Repair(st.store.disk[NextFile(st.store.disk) := []]) == st.store.disk
  {
    var n := NextFile(st.store.disk);
    var files := st.store.disk[n := []];
    assert Highest(files.Keys) == n by {
      assert n in files.Keys;
    }
    assert files - {n} == st.store.disk;
  }

  /** Closing flushes everything. */
  lemma ClosingShowsAll(c: Config, st: State)
    requires Inv(c, st)
    ensures Wf(st) && Inv(c, Closing(st)) && FlushOk(Closing(st)) && VisibleLog(Closing(st)) == st.log
  {
    FlushedPart(c, st);
    if st.store.open {
      FlushKeeps(c, st);
      AllFlushed(Flush(st));
    } else {
      AllFlushed(st);
    }
  }

  lemma AllFlushed(st: State)
    requires st.store.cur in st.log ==> st.flushed == |st.log[st.store.cur]|
    ensures FlushOk(st) && VisibleLog(st) == st.log
  {
    assert forall f | f in st.log :: Visible(st, f) == st.log[f];
  }

  /** After Close the directory holds the whole log, and can be opened again. */
  lemma ClosedDirectory(c: Config, st: State)
    requires Inv(c, st)
    ensures Wf(st)
    ensures var disk := Closing(st).store.disk; Known(c, disk, st.log) && Openable(disk) && Repair(disk) == disk
  {
    hide Inv, Closing, Known, Openable, Repair, VisibleLog;
    ClosingShowsAll(c, st);
    Reopens(c, Closing(st));
  }

  /**
   Recovery after a crash at any moment between two calls: the scan of the reopened directory reports exactly the
   flushed entries, in writing order, if and only if in no file an entry has all three ids zero or the last record
   is shorter than the largest record head.
   */
  lemma CrashRecovery(c: Config, st: State)
    requires Inv(c, st) && st.log.Keys == st.store.disk.Keys
    ensures FlushOk(st)
    ensures var re := Opened(st.store.disk, VisibleLog(st));
            var o := IterateOutcome(c, re.store);
            && (o.ok && o.reports == AllReports(c.crc, Ascending(st.log.Keys), VisibleLog(st))
                <==> forall f | f in st.log :: Recoverable(Visible(st, f), 0))
            && ((forall f | f in st.log :: Recoverable(Visible(st, f), 0)) ==> AllBounded(Iterate(c, re)))
  {
    Reopens(c, st);
    var re := Opened(st.store.disk, VisibleLog(st));
    ReopenedVisible(c, st);
    IterateReports(c, re);
    if AllRecover(c, re) {
      IterateBounds(c, re);
    }
  }

  lemma ReopenedVisible(c: Config, st: State)
    requires Inv(c, st) && FlushOk(st) && Known(c, st.store.disk, VisibleLog(st))
    ensures var re := Opened(st.store.disk, VisibleLog(st));
            && FlushOk(re) && VisibleLog(re) == VisibleLog(st) && re.log.Keys == st.log.Keys
            && WithinMappings(re.store) && re.log.Keys <= re.store.mapped.Keys
            && (AllRecover(c, re) <==> forall f | f in st.log :: Recoverable(Visible(st, f), 0))
  {
    hide Inv, FileBytes, LogOk, Recoverable, Visible, Mapped;
    var disk, log := st.store.disk, VisibleLog(st);
    var re := Opened(disk, log);
    assert re.log.Keys == st.log.Keys;
    AllFlushed(re);
    hide VisibleLog;
    forall f | f in log ensures Recovers(c.crc, View(re.store, f), Visible(re, f)) <==> Recoverable(log[f], 0) {
      WholeFile(disk[f]);
      assert Visible(re, f) == VisibleLog(re)[f] by {
        OneVisible(re, f);
      }
    }
  }

  lemma OneVisible(st: State, f: nat)
    requires FlushOk(st) && f in st.log
    ensures f in VisibleLog(st) && VisibleLog(st)[f] == Visible(st, f)
  {
  }

  /** A reopened file is mapped as a whole: every known chunk can be read, also one that no new file could hold. */
  lemma FetchReopened(c: Config, files: map<nat, seq<Byte>>, log: map<nat, seq<Entry>>, f: nat, i: nat)
    requires Openable(files) && Known(c, files, log) && f in log && f < TWO32 && i < |log[f]|
    ensures var e := log[f][i];
            var r := Fetch(c, Opened(files, log).store, ChunkRef(f, Offset(c.crc, log[f], i)));
            if e.chunk.encoding == ENC_XOR then r == Found(e.chunk) else !r.Found?
  {
    OpenedInv(c, files, log);
    RecordAt(c.crc, log[f], i);
    hide Inv, Openable, Known, Fetch, FileBytes, Offset, ChunkRef, Record;
    FetchEntry(c, Opened(files, log), f, i);
  }

  /**
   A chunk just written can be read once the directory was closed and reopened, whether its record fits in a file or
   not.
   */
  lemma ReadableAfterReopening(c: Config, st: State, e: Entry)
    requires Inv(c, st) && |e.chunk.bytes| < TWO32 && e.chunk.encoding == ENC_XOR
    requires Wf(st) && Highest(Write(c, st, e).store.disk.Keys) < TWO32
    ensures var st' := Write(c, st, e);
            && Wf(st')
            && Fetch(c, Opened(Closing(st').store.disk, st'.log).store, WriteRef(c, st, e)) == Found(e.chunk)
  {
    WriteKeeps(c, st, e);
    var st' := Write(c, st, e);
    ClosedDirectory(c, st');
    FileNumbers(c, st', st'.store.cur);
    hide Inv, Write, Closing, Openable, Known, Opened, Fetch, ChunkRef, Offset;
    var i: nat :| IsEntry(c, st'.log, st'.store.cur, i, WriteRef(c, st, e), e);
    FetchReopened(c, Closing(st').store.disk, st'.log, st'.store.cur, i);
  }

  lemma FileNumbers(c: Config, st: State, f: nat)
    requires Inv(c, st)
    ensures f in st.log ==> f in st.store.disk && f <= Highest(st.store.disk.Keys)
  {
  }

  /** What had reached the disk when the process died can be read after reopening. */
  lemma RecoveredReadable(c: Config, st: State, f: nat, i: nat)
    requires Inv(c, st) && f in st.log && f < TWO32
    requires FlushOk(st) && i < |Visible(st, f)| && Visible(st, f)[i].chunk.encoding == ENC_XOR
    ensures var ref := ChunkRef(f, Offset(c.crc, Visible(st, f), i));
            Fetch(c, Opened(st.store.disk, VisibleLog(st)).store, ref) == Found(Visible(st, f)[i].chunk)
  {
    Reopens(c, st);
    OneVisible(st, f);
    hide Inv, Openable, Known, Opened, Fetch, ChunkRef, Offset, VisibleLog, Visible;
    FetchReopened(c, st.store.disk, VisibleLog(st), f, i);
  }

  /**
   After a crash, every report of a complete scan is about a chunk that was written and had reached the disk, and the
   reported reference reads that chunk.
   */
  lemma ReportedReadable(c: Config, st: State, r: Report)
    requires Inv(c, st) && st.log.Keys == st.store.disk.Keys && Highest(st.store.disk.Keys) < TWO32 && FlushOk(st)
    requires forall f | f in st.log :: Recoverable(Visible(st, f), 0)
    requires r in IterateOutcome(c, Opened(st.store.disk, VisibleLog(st)).store).reports
    ensures exists f, i: nat ::
              && f in st.log && IsReport(c.crc, VisibleLog(st), f, i, r)
              && (Visible(st, f)[i].chunk.encoding == ENC_XOR ==>
                    Fetch(c, Opened(st.store.disk, VisibleLog(st)).store, r.ref) == Found(Visible(st, f)[i].chunk))
  {
    CrashRecovery(c, st);
    assert forall f :: f in Ascending(st.log.Keys) <==> f in st.log;
    hide Inv, Opened, Fetch, IterateOutcome, Recoverable, Ascending, ChunkRef, AllReports, Iterate, AllBounded, Offset;
    AllReportsAt(c.crc, Ascending(st.log.Keys), VisibleLog(st), r);
    var f, i: nat :| f in Ascending(st.log.Keys) && IsReport(c.crc, VisibleLog(st), f, i, r);
    FileNumbers(c, st, f);
    OneVisible(st, f);
    if Visible(st, f)[i].chunk.encoding == ENC_XOR {
      RecoveredReadable(c, st, f, i);
    }
  }

  // ---------------------------------------------------------------- whole runs

  datatype Op = WriteChunk(entry: Entry) | CutNewFile | TruncateAt(mint: Int64) | IterateAll

  /** Every operation, on a store that has not been closed. */
  ghost function Step(c: Config, st: State, op: Op): State
    requires Inv(c, st)
  {
    CutGrows(c, st);
    match op
    case WriteChunk(e) => Write(c, st, e)
    case CutNewFile => Cut(st)
    case TruncateAt(mint) => Truncate(st, mint)
    case IterateAll =>
      FlushedPart(c, st);
      Iterate(c, st)
  }

  /** The length field of a record has 32 bits. */
  predicate OpOk(op: Op) {
    op.WriteChunk? ==> |op.entry.chunk.bytes| < TWO32
  }

  /** A store that knows what is in each of its files goes on knowing it. */
  lemma StepKnows(c: Config, st: State, op: Op)
    requires Inv(c, st)
    ensures st.log.Keys == st.store.disk.Keys ==> Step(c, st, op).log.Keys == Step(c, st, op).store.disk.Keys
  {
    CutGrows(c, st);
    FlushedPart(c, st);
    hide Inv, Cut, Write, Truncate, IterateOutcome;
    match op
    case WriteChunk(e) => WriteKnows(c, st, e);
    case CutNewFile => CutKnows(st);
    case TruncateAt(mint) => TruncateKnows(st, mint);
    case IterateAll =>
  }

  lemma TruncateKnows(st: State, mint: Int64)
    requires Wf(st)
    ensures st.log.Keys == st.store.disk.Keys ==> Truncate(st, mint).log.Keys == Truncate(st, mint).store.disk.Keys
  {
    CutKnows(st);
    hide Cut, Removed, ToSet;
    var removed, settled := ToSet(Removed(st.store, mint)), Settled(st);
    assert (settled.log - removed).Keys == settled.log.Keys - removed;
    assert (settled.store.disk - removed).Keys == settled.store.disk.Keys - removed;
  }

  lemma CutKnows(st: State)
    requires Wf(st)
    ensures st.log.Keys == st.store.disk.Keys ==> Cut(st).log.Keys == Cut(st).store.disk.Keys
    ensures Wf(Cut(st)) && Cut(st).store.open
  {
    hide NextFile;
  }

  lemma WriteKnows(c: Config, st: State, e: Entry)
    requires Inv(c, st) && Wf(st)
    ensures st.log.Keys == st.store.disk.Keys ==> Write(c, st, e).log.Keys == Write(c, st, e).store.disk.Keys
  {
    CutKnows(st);
    hide Inv, Cut, Append, Flush;
    var st1 := if ShouldCut(st.store, e) then Cut(st) else st;
    FlushKnows(st1);
    var st2 := Ready(c, st, e);
    AppendKnows(c, st2, e);
    FlushKnows(Append(c, st2, e));
  }

  lemma FlushKnows(st: State)
    requires Wf(st) && st.store.open
    ensures Flush(st).log == st.log && Flush(st).store.disk.Keys == st.store.disk.Keys
    ensures Wf(Flush(st)) && Flush(st).store.open
  {
  }

  lemma AppendKnows(c: Config, st: State, e: Entry)
    requires Wf(st) && st.store.open
    ensures Append(c, st, e).log.Keys == st.log.Keys && Append(c, st, e).store.disk == st.store.disk
    ensures Wf(Append(c, st, e)) && Append(c, st, e).store.open
  {
    hide Record, RecordSize, ChunkRef;
  }

  lemma StepKeeps(c: Config, st: State, op: Op)
    requires Inv(c, st) && OpOk(op)
    ensures Inv(c, Step(c, st, op)) && BoundsKept(st, Step(c, st, op))
    ensures st.log.Keys == st.store.disk.Keys ==> Step(c, st, op).log.Keys == Step(c, st, op).store.disk.Keys
  {
    StepKnows(c, st, op);
    hide Inv, Bounded, Write, Cut, Truncate, Iterate;
    match op
    case WriteChunk(e) => WriteKeeps(c, st, e);
    case CutNewFile => CutKeeps(c, st);
    case TruncateAt(mint) => TruncateKeeps(c, st, mint);
    case IterateAll => IterateKeeps(c, st);
  }

  ghost function Run(c: Config, st: State, ops: seq<Op>): State
    requires Inv(c, st) && forall op | op in ops :: OpOk(op)
    decreases |ops|
  {
    if ops == [] then st
    else
      StepKeeps(c, st, ops[0]);
      Run(c, Step(c, st, ops[0]), ops[1..])
  }

  /** No truncation of the run covers the entry. */
  predicate Retained(ops: seq<Op>, e: Entry) {
    forall op | op in ops :: op.TruncateAt? ==> op.mint <= e.maxt
  }

  /** The entry is in this file under its reference, and the recorded maxt of the file, if it counts yet, bounds it. */
  ghost predicate Safe(c: Config, st: State, file: nat, ref: UInt64, e: Entry) {
    HeldIn(c, st, file, ref, e) && Bounded(st, file)
  }

  lemma StepHolds(c: Config, st: State, op: Op, file: nat, ref: UInt64, e: Entry)
    requires Inv(c, st) && OpOk(op) && Safe(c, st, file, ref, e)
    requires op.TruncateAt? ==> op.mint <= e.maxt
    ensures Safe(c, Step(c, st, op), file, ref, e)
  {
    CutGrows(c, st);
    StepKeeps(c, st, op);
    hide Inv, Bounded, Write, Cut, Truncate, IterateOutcome, Offset, ChunkRef;
    match op
    case WriteChunk(w) =>
      WriteKeeps(c, st, w);
      LogGrowsKeeps(c, st, Write(c, st, w), file, ref, e);
    case CutNewFile =>
      LogGrowsKeeps(c, st, Cut(st), file, ref, e);
    case TruncateAt(mint) => TruncateHolds(c, st, mint, file, ref, e);
    case IterateAll =>
  }

  /** Every run keeps the invariant, and every entry that no truncation covers. */
  lemma {:induction false} RunKeeps(c: Config, st: State, ops: seq<Op>, file: nat, ref: UInt64, e: Entry)
    requires Inv(c, st) && (forall op | op in ops :: OpOk(op)) && Retained(ops, e)
    requires Safe(c, st, file, ref, e)
    ensures var st' := Run(c, st, ops); Inv(c, st') && Safe(c, st', file, ref, e)
    decreases |ops|
  {
    hide Inv, Safe, Step;
    if ops != [] {
      StepKeeps(c, st, ops[0]);
      StepHolds(c, st, ops[0], file, ref, e);
      RunKeeps(c, Step(c, st, ops[0]), ops[1..], file, ref, e);
    }
  }

  /** Recorded maxts that bound the chunks of every file do so after every run. */
  lemma {:induction false} RunInv(c: Config, st: State, ops: seq<Op>)
    requires Inv(c, st) && forall op | op in ops :: OpOk(op)
    ensures Inv(c, Run(c, st, ops)) && (AllBounded(st) ==> AllBounded(Run(c, st, ops)))
    ensures st.log.Keys == st.store.disk.Keys ==> Run(c, st, ops).log.Keys == Run(c, st, ops).store.disk.Keys
    decreases |ops|
  {
    hide Inv, Bounded, Step;
    if ops != [] {
      StepKeeps(c, st, ops[0]);
      RunInv(c, Step(c, st, ops[0]), ops[1..]);
    }
  }

  /**
   Read your writes over every run, also in a directory that was reopened and not scanned: whatever is written, cut,
   truncated and scanned before and after, the reference that WriteChunk returned for a chunk gives back that chunk, as
   long as no later truncation covers it.
   */
  lemma RunReadsBack(c: Config, st: State, before: seq<Op>, e: Entry, after: seq<Op>)
    requires Inv(c, st) && |e.chunk.bytes| < TWO32 && Fits(e) && e.chunk.encoding == ENC_XOR
    requires (forall op | op in before :: OpOk(op)) && (forall op | op in after :: OpOk(op)) && Retained(after, e)
    ensures var st1 := Run(c, st, before);
            && Inv(c, st1) && Wf(st1) && Inv(c, Write(c, st1, e))
            && var end := Run(c, Write(c, st1, e), after);
               Highest(end.store.disk.Keys) < TWO32 ==> Fetch(c, end.store, WriteRef(c, st1, e)) == Found(e.chunk)
  {
    hide Inv, Bounded, AllBounded, HeldIn, Run, Write, Fetch, Fits, Retained;
    RunInv(c, st, before);
    var st1 := Run(c, st, before);
    WriteKeeps(c, st1, e);
    var st2 := Write(c, st1, e);
    RunKeeps(c, st2, after, st2.store.cur, WriteRef(c, st1, e), e);
    var end := Run(c, st2, after);
    if Highest(end.store.disk.Keys) < TWO32 {
      assert Holds(c, end, WriteRef(c, st1, e), e);
      ReadYourWrites(c, end, WriteRef(c, st1, e), e);
    }
  }

  /** A run may start in an empty directory. */
  lemma EmptyDirectory(c: Config)
    ensures Inv(c, Opened(map[], map[])) && AllBounded(Opened(map[], map[]))
  {
  }

  /**
   What a store that began empty has recorded, whatever was done with it: the maxt of the current file, and of every
   finished one, reaches t if and only if t is not positive or some chunk of the file does.
   */
  lemma RunRecords(c: Config, ops: seq<Op>, f: nat, t: Int64)
    requires forall op | op in ops :: OpOk(op)
    ensures Inv(c, Opened(map[], map[]))
    ensures var st := Run(c, Opened(map[], map[]), ops);
            f in st.log ==>
              && f in st.store.mapped
              && var recorded := if st.store.open && f == st.store.cur then st.store.maxt else st.store.mapped[f].maxt;
                 recorded >= t <==> t <= 0 || Reaches(st.log[f], t)
  {
    EmptyDirectory(c);
    RunInv(c, Opened(map[], map[]), ops);
    var st := Run(c, Opened(map[], map[]), ops);
    hide Run, Reaches, Bounded;
    if f in st.log {
      FileOfLog(c, st, f);
      if st.store.open && f == st.store.cur {
        CurrentExact(c, st, t);
      } else {
        RecordedExact(c, st, f, t);
      }
    }
  }

  lemma FileOfLog(c: Config, st: State, f: nat)
    requires Inv(c, st) && f in st.log
    ensures f in st.store.mapped && (!st.store.open ==> f != st.store.cur)
  {
  }

  /** And which files a truncation of it then removes. */
  lemma RunTruncates(c: Config, ops: seq<Op>, mint: Int64, f: nat)
    requires forall op | op in ops :: OpOk(op)
    ensures Inv(c, Opened(map[], map[]))
    ensures var st := Run(c, Opened(map[], map[]), ops);
            && Wf(st)
            && (f in st.log && st.store.maxtSet ==>
                 (f !in Truncate(st, mint).store.disk
                  <==> mint > 0 && forall g | g in st.log && g <= f :: g != st.store.cur && !Reaches(st.log[g], mint)))
  {
    EmptyDirectory(c);
    RunInv(c, Opened(map[], map[]), ops);
    var st := Run(c, Opened(map[], map[]), ops);
    FlushedPart(c, st);
    hide Inv, Run, Reaches, AllBounded, Truncate;
    if f in st.log && st.store.maxtSet {
      TruncateRemovesIff(c, st, mint, f);
    }
  }

  // ---------------------------------------------------------------- truncating after a scan

  /** The scan got as far as file g: it found no error in the files before it. */
  ghost predicate Reached(c: Config, s: Store, g: nat)
    requires s.mapped.Keys == s.disk.Keys
  {
    forall h | h in s.mapped && h < g :: ScanFile(c.crc, h, View(s, h)).ok
  }

  /** The callback was told of a chunk of file g with a maxt of t or more. */
  ghost predicate Told(c: Config, s: Store, g: nat, t: Int64)
    requires s.mapped.Keys == s.disk.Keys && g in s.mapped
  {
    Reached(c, s, g) && exists i :: 0 <= i < |ScanFile(c.crc, g, View(s, g)).reports|
                                    && ScanFile(c.crc, g, View(s, g)).reports[i].maxt >= t
  }

  lemma ScanInputs(s: Store)
    requires s.mapped.Keys == s.disk.Keys
    ensures forall f :: f in Ascending(s.mapped.Keys) <==> f in s.mapped
    ensures forall f | f in s.mapped ::
              f in Views(s) && Views(s)[f] == View(s, f) && f in Maxts(s.mapped)
                && Maxts(s.mapped)[f] == s.mapped[f].maxt
  {
  }

  lemma OutcomeKeys(c: Config, s: Store)
    requires s.mapped.Keys == s.disk.Keys
    ensures IterateOutcome(c, s).maxts.Keys == s.mapped.Keys
  {
    hide ScanAll;
  }

  /** When the scan ends without an error. */
  lemma ScanSucceeds(c: Config, s: Store)
    requires s.mapped.Keys == s.disk.Keys
    ensures IterateOutcome(c, s).ok <==> forall h | h in s.mapped :: ScanFile(c.crc, h, View(s, h)).ok
  {
    var files := Ascending(s.mapped.Keys);
    ScanInputs(s);
    hide ScanFile, ScanAll, View, Views, Maxts, Ascending;
    ScanAllOk(c.crc, files, Views(s), Maxts(s.mapped));
    if IterateOutcome(c, s).ok {
      forall h | h in s.mapped ensures ScanFile(c.crc, h, View(s, h)).ok {
        assert h in files && ScanFile(c.crc, h, Views(s)[h]).ok;
      }
    } else {
      var h :| h in files && !ScanFile(c.crc, h, Views(s)[h]).ok;
      assert h in s.mapped && !ScanFile(c.crc, h, View(s, h)).ok;
    }
  }

  /** What the scan records for a file. */
  lemma Recorded(c: Config, s: Store, g: nat)
    requires s.mapped.Keys == s.disk.Keys && g in s.mapped && g in IterateOutcome(c, s).maxts
    ensures IterateOutcome(c, s).maxts[g]
            == if Reached(c, s, g) then Raise(s.mapped[g].maxt, ScanFile(c.crc, g, View(s, g)).reports)
               else s.mapped[g].maxt
  {
    var files := Ascending(s.mapped.Keys);
    ScanInputs(s);
    hide ScanFile, ScanAll, View, Views, Maxts, Raise, Ascending;
    ScanAllMaxts(c.crc, files, Views(s), Maxts(s.mapped), g);
    if Reached(c, s, g) {
      assert forall h | h in files && h < g :: ScanFile(c.crc, h, Views(s)[h]).ok;
    } else {
      var h :| h in s.mapped && h < g && !ScanFile(c.crc, h, View(s, h)).ok;
      assert h in files && !ScanFile(c.crc, h, Views(s)[h]).ok;
    }
  }

  lemma RecordedReaches(c: Config, s: Store, g: nat, t: Int64)
    requires s.mapped.Keys == s.disk.Keys && g in s.mapped
    ensures IterateOutcome(c, s).maxts[g] >= t <==> s.mapped[g].maxt >= t || Told(c, s, g, t)
  {
    hide ScanFile, IterateOutcome, View, Raise, Reached;
    OutcomeKeys(c, s);
    Recorded(c, s, g);
    RaiseReaches(s.mapped[g].maxt, ScanFile(c.crc, g, View(s, g)).reports, t);
  }

  /** A file at or before f is the current one, was recorded to reach t, or was just reported to. */
  ghost predicate GuardedByScan(c: Config, s: Store, f: nat, t: Int64)
    requires s.mapped.Keys == s.disk.Keys
  {
    exists g: nat :: g in s.mapped && g <= f && (g == s.cur || s.mapped[g].maxt >= t || Told(c, s, g, t))
  }

  lemma GuardedAfterScan(c: Config, st: State, f: nat, t: Int64)
    requires st.store.mapped.Keys == st.store.disk.Keys
    ensures Guarded(Iterate(c, st).store, f, t) <==> GuardedByScan(c, st.store, f, t)
  {
    hide IterateOutcome, Told;
    forall g | g in st.store.mapped
      ensures Iterate(c, st).store.mapped[g].maxt >= t <==> st.store.mapped[g].maxt >= t || Told(c, st.store, g, t)
    {
      RecordedReaches(c, st.store, g, t);
    }
  }

  /**
   What a caller may rely on after IterateAllChunks, with or without an error: truncations keep every chunk that reaches
   their mint, if and only if for every chunk its own file or an earlier one is the current file, was recorded before to
   reach as far, or was reported by the scan with a chunk that does.
   */
  lemma TruncateSafeAfterScan(c: Config, st: State)
    requires Inv(c, st)
    ensures st.store.mapped.Keys == st.store.disk.Keys && Wf(Iterate(c, st))
    ensures TruncateSafe(Iterate(c, st))
            <==> forall f, i: nat | f in st.log && i < |st.log[f]| :: GuardedByScan(c, st.store, f, st.log[f][i].maxt)
  {
    IterateKeeps(c, st);
    hide Inv, BoundsKept, TruncateSafe, Guarded, GuardedByScan, IterateOutcome;
    var re := Iterate(c, st);
    TruncateSafeIff(c, re);
    forall f, i: nat | f in st.log && i < |st.log[f]|
      ensures Guarded(re.store, f, re.log[f][i].maxt) <==> GuardedByScan(c, st.store, f, st.log[f][i].maxt)
    {
      GuardedAfterScan(c, st, f, st.log[f][i].maxt);
    }
  }

  /**
   The scan marks the maxts as set even when it fails. If the first file of a reopened directory cannot be read at all,
   every recorded maxt is still 0, and the next truncation above 0 deletes every file, whatever the later ones hold.
   */
  lemma TruncateAfterFailedScan(c: Config, files: map<nat, seq<Byte>>, log: map<nat, seq<Entry>>, mint: Int64)
    requires Openable(files) && 0 !in files && files != map[] && mint > 0
    requires ScanFile(c.crc, Least(files.Keys), files[Least(files.Keys)]) == Scan([], false)
    ensures var re := Iterate(c, Opened(files, log));
            && Wf(re) && !IterateOutcome(c, Opened(files, log).store).ok && Truncate(re, mint).store.disk == map[]
  {
    FailedScan(c, files, log);
    var re := Iterate(c, Opened(files, log));
    hide IterateOutcome, Openable, ScanFile, Truncate;
    TruncateEverything(re, mint);
  }

  lemma TruncateEverything(st: State, mint: Int64)
    requires !st.store.open && st.store.cur == 0 && st.store.size == 0 && st.store.maxtSet
    requires st.store.mapped.Keys == st.store.disk.Keys && 0 !in st.store.disk
    requires forall f | f in st.store.mapped :: st.store.mapped[f].maxt < mint
    ensures Wf(st) && Truncate(st, mint).store.disk == map[]
  {
    hide Removed;
    forall f | f in st.store.disk ensures f in Removed(st.store, mint) {
      RemovedIff(st.store, mint, f);
    }
  }

  lemma FailedScan(c: Config, files: map<nat, seq<Byte>>, log: map<nat, seq<Entry>>)
    requires 0 !in files && files != map[]
    requires ScanFile(c.crc, Least(files.Keys), files[Least(files.Keys)]) == Scan([], false)
    ensures var s := Opened(files, log).store;
            && s.mapped.Keys == files.Keys && !IterateOutcome(c, s).ok
            && forall g | g in files :: IterateOutcome(c, s).maxts[g] == 0
  {
    hide ScanFile, IterateOutcome, Mapped;
    var s := Opened(files, log).store;
    var f := Least(files.Keys);
    assert s.mapped.Keys == files.Keys;
    WholeFile(files[f]);
    assert View(s, f) == files[f];
    hide View;
    ScanSucceeds(c, s);
    OutcomeKeys(c, s);
    forall g | g in files ensures IterateOutcome(c, s).maxts[g] == 0 {
      Recorded(c, s, g);
    }
  }

  /** A file numbered 0 is taken for the current file of size 0 after reopening, and ends the scan with an error. */
  lemma FileZeroFails(c: Config, files: map<nat, seq<Byte>>, log: map<nat, seq<Entry>>)
    requires 0 in files
    ensures Opened(files, log).store.mapped.Keys == files.Keys && !IterateOutcome(c, Opened(files, log).store).ok
  {
    hide IterateOutcome, ScanTail;
    var s := Opened(files, log).store;
    assert s.mapped.Keys == files.Keys;
    ScanSucceeds(c, s);
    assert View(s, 0) == [];
    assert ScanFile(c.crc, 0, []) == Scan([], false);
  }

  /** A directory whose first file has a stray byte behind its header, and whose second file holds e. */
  function StrayFirst(c: Config, e: Entry): map<nat, seq<Byte>> {
    map[1 := HEADER + [1], 2 := FileBytes(c.crc, [e])]
  }

  lemma StrayFirstOpens(c: Config, e: Entry)
    requires |e.chunk.bytes| < TWO32
    ensures var files, log := StrayFirst(c, e), map[2 := [e]];
            && files.Keys == {1, 2} && Openable(files) && Known(c, files, log) && Inv(c, Opened(files, log))
  {
    StrayByte(c.crc, 1);
    HeaderOfFile(c.crc, [e]);
    hide FileBytes, HeaderOk, LogOk, ScanFile;
    OpenedInv(c, StrayFirst(c, e), map[2 := [e]]);
  }

  /** There a truncation after the failed scan loses e, although it reaches mint. */
  lemma LostAfterFailedScan(c: Config, e: Entry, mint: Int64)
    requires |e.chunk.bytes| < TWO32 && 0 < mint <= e.maxt
    ensures var re := Iterate(c, Opened(StrayFirst(c, e), map[2 := [e]]));
            Inv(c, re) && Wf(re) && !Kept(re, Truncate(re, mint), 2, 0)
  {
    StrayFirstOpens(c, e);
    StrayByte(c.crc, 1);
    var st := Opened(StrayFirst(c, e), map[2 := [e]]);
    IterateKeeps(c, st);
    assert StrayFirst(c, e)[1] == HEADER + [1];
    hide StrayFirst, Inv, Known, Openable, Truncate, ScanFile, IterateOutcome;
    TruncateAfterFailedScan(c, StrayFirst(c, e), map[2 := [e]], mint);
  }

  lemma StrayByte(crc: Checksum, file: nat)
    ensures HeaderOk(HEADER + [1]) && ScanFile(crc, file, HEADER + [1]) == Scan([], false)
  {
    assert (HEADER + [1])[HEADER_SIZE..] == [1] && (HEADER + [1])[..5] == HEADER[..5];
    assert !AllZero([1]) by {
      assert [1][0] == 1;
    }
  }

  lemma WholeFile(file: seq<Byte>)
    ensures Mapped(file, |file|) == file
  {
  }
}
