/**
 Truncate and deleteFiles: which head chunk files go, and what is left at every moment.
 */
module ChunkTruncate {
  import opened Bits
  import opened ChunkRecord
  import opened ChunkStore
  import opened Keys

  /** Truncate takes the longest run of finished files, from the first on, whose recorded maxt is below mint. */
  lemma {:induction false} RemovableIsPrefix(files: seq<nat>, cur: nat, maxts: map<nat, Int64>, mint: Int64)
    requires forall f | f in files :: f in maxts
    ensures var r := Removable(files, cur, maxts, mint);
            && r <= files && (forall f | f in r :: f != cur && maxts[f] < mint)
            && (|r| < |files| ==> files[|r|] == cur || maxts[files[|r|]] >= mint)
  {
    if files == [] || files[0] == cur || maxts[files[0]] >= mint {
    } else {
      RemovableIsPrefix(files[1..], cur, maxts, mint);
      assert files == [files[0]] + files[1..];
    }
  }

  lemma RemovableStep(files: seq<nat>, i: nat, cur: nat, maxts: map<nat, Int64>, mint: Int64)
    requires i < |files| && forall f | f in files :: f in maxts
    ensures Removable(files[i..], cur, maxts, mint)
            == if files[i] == cur || maxts[files[i]] >= mint then []
               else [files[i]] + Removable(files[i + 1..], cur, maxts, mint)
  {
    assert files[i..][1..] == files[i + 1..];
  }

  lemma NothingRemovable(files: seq<nat>, cur: nat, maxts: map<nat, Int64>, mint: Int64)
    ensures Removable(files[|files|..], cur, maxts, mint) == []
  {
  }

  lemma RemovedIsPrefix(s: Store, mint: Int64)
    ensures var files, r := Ascending(s.mapped.Keys), Removed(s, mint);
            && r <= files && (forall f | f in r :: f in s.mapped && f != s.cur && s.mapped[f].maxt < mint)
            && (|r| < |files| ==> files[|r|] == s.cur || s.mapped[files[|r|]].maxt >= mint)
  {
    RemovableIsPrefix(Ascending(s.mapped.Keys), s.cur, Maxts(s.mapped), mint);
    var files, r := Ascending(s.mapped.Keys), Removed(s, mint);
    forall f | f in r ensures f in s.mapped && f != s.cur && s.mapped[f].maxt < mint {
      assert f in files;
    }
    if |r| < |files| {
      assert files[|r|] in files;
    }
  }

  /** A file at or before f is the current one, or was recorded to reach mint. */
  ghost predicate Guarded(s: Store, f: nat, mint: Int64) {
    exists g: nat :: g in s.mapped && g <= f && (g == s.cur || s.mapped[g].maxt >= mint)
  }

  /** The exact condition on the recorded maxts for a file to be removed. */
  lemma RemovedIff(s: Store, mint: Int64, f: nat)
    requires f in s.mapped
    ensures f in Removed(s, mint) <==> !Guarded(s, f, mint)
  {
    RemovedIsPrefix(s, mint);
    hide Removed;
    var files, r := Ascending(s.mapped.Keys), Removed(s, mint);
    if f in r {
      forall g: nat | g in s.mapped && g <= f ensures g != s.cur && s.mapped[g].maxt < mint {
        PrefixDownward(s.mapped.Keys, |r|, g, f);
      }
    } else {
      NotInPrefix(s.mapped.Keys, |r|, f);
      assert files[|r|] in files;
    }
  }

  lemma NotInPrefix(keys: set<nat>, n: nat, f: nat)
    requires n <= |Ascending(keys)| && f in keys && f !in Ascending(keys)[..n]
    ensures n < |Ascending(keys)| && Ascending(keys)[n] <= f
  {
    var files := Ascending(keys);
    var j :| 0 <= j < |files| && files[j] == f;
    assert j >= n;
  }

  lemma SettledKeeps(c: Config, st: State)
    requires Inv(c, st)
    ensures Wf(st)
    ensures var st1 := Settled(st);
            && Inv(c, st1) && LogGrows(st.log, st1.log) && BoundsKept(st, st1)
            && (st1.store.disk.Keys == st.store.disk.Keys
                || (st1.store.open && st1.store.disk.Keys == st.store.disk.Keys + {NextFile(st.store.disk)}))
            && (st1.store.open && !st.store.open ==> st1.store.cur !in st.store.disk)
            && (st1.store.cur == st.store.cur || st1.store.cur == NextFile(st.store.disk))
  {
    CutGrows(c, st);
    if st.store.size > HEADER_SIZE {
      CutKeeps(c, st);
      CutKeys(st);
    } else {
      assert LogGrows(st.log, st.log);
    }
  }

  lemma CutKeys(st: State)
    requires Wf(st)
    ensures Finalize(st).store.disk.Keys == st.store.disk.Keys
    ensures Cut(st).store.disk.Keys == st.store.disk.Keys + {NextFile(st.store.disk)}
    ensures Cut(st).store.cur == NextFile(st.store.disk) && Cut(st).store.open
  {
  }

  lemma Numbering(c: Config, st: State)
    requires Inv(c, st)
    ensures st.store.mapped.Keys == st.store.disk.Keys && Contiguous(st.store.disk.Keys)
    ensures forall f | f in st.store.disk :: f < NextFile(st.store.disk)
  {
  }

  lemma SettledNumbering(c: Config, st: State)
    requires Inv(c, st)
    ensures Wf(st)
    ensures var keys, next := st.store.disk.Keys, NextFile(st.store.disk);
            var settled := Settled(st).store.disk.Keys;
            Contiguous(settled) && (settled == keys || (settled == keys + {next} && forall x | x in keys :: x < next))
  {
    hide Inv, Contiguous, Settled, LogGrows, BoundsKept;
    SettledKeeps(c, st);
    Numbering(c, st);
    Numbering(c, Settled(st));
  }

  lemma NoGapInPrefix(keys: set<nat>, r: seq<nat>, n: nat, next: nat)
    requires n <= |r| && r <= Ascending(keys)
    ensures Contiguous(keys) ==> Contiguous(keys - ToSet(r[..n]))
    ensures Contiguous(keys + {next}) && (forall x | x in keys :: x < next) ==>
              Contiguous(keys + {next} - ToSet(r[..n]))
  {
    hide Contiguous, Ascending, ToSet;
    assert Ascending(keys)[..n] == r[..n];
    if Contiguous(keys) {
      assert keys + {} == keys;
      PrefixRemoved(keys, {}, n);
    }
    if Contiguous(keys + {next}) && forall x | x in keys :: x < next {
      PrefixRemoved(keys, {next}, n);
    }
  }

  /** However many of the files to remove are already gone, the files on disk are numbered without a gap. */
  lemma NoGapWhileDeleting(c: Config, st: State, mint: Int64, n: nat)
    requires Inv(c, st) && n <= |Removed(st.store, mint)|
    ensures Wf(st) && Contiguous(Settled(st).store.disk.Keys - ToSet(Removed(st.store, mint)[..n]))
  {
    Numbering(c, st);
    hide Inv, Contiguous, Settled, Removed, ToSet, NextFile, Ascending;
    SettledNumbering(c, st);
    RemovedIsPrefix(st.store, mint);
    NoGapInPrefix(st.store.disk.Keys, Removed(st.store, mint), n, NextFile(st.store.disk));
  }

  /** Deleting finished files keeps the invariant of everything else. */
  lemma DeleteKeeps(c: Config, st: State, files: set<nat>)
    requires Inv(c, st) && Contiguous(st.store.disk.Keys - files) && (st.store.open ==> st.store.cur !in files)
    ensures Inv(c, Delete(st, files)) && BoundsKept(st, Delete(st, files))
  {
    hide LogOk, HeaderOk, Contiguous, FileBytes, Records, MaxtBounds, PendingIs, MaxtOf, RecordedOk;
    var st' := Delete(st, files);
    assert st'.store.disk.Keys == st.store.disk.Keys - files;
  }

  lemma CurrentStays(c: Config, st: State, mint: Int64)
    requires Inv(c, st)
    ensures Wf(st) && st.store.cur !in Removed(st.store, mint)
    ensures Settled(st).store.open ==> Settled(st).store.cur !in Removed(st.store, mint)
  {
    hide Settled, Removed;
    SettledKeeps(c, st);
    RemovedIsPrefix(st.store, mint);
    assert st.store.mapped.Keys == st.store.disk.Keys;
  }

  lemma TruncateKeeps(c: Config, st: State, mint: Int64)
    requires Inv(c, st)
    ensures Wf(st) && Inv(c, Truncate(st, mint)) && BoundsKept(st, Truncate(st, mint))
  {
    hide Settled, Removed, Inv, Contiguous, Bounded, Delete, LogGrows;
    SettledKeeps(c, st);
    if st.store.maxtSet {
      var r := Removed(st.store, mint);
      NoGapWhileDeleting(c, st, mint, |r|);
      assert r[..|r|] == r;
      CurrentStays(c, st, mint);
      DeleteKeeps(c, Settled(st), ToSet(r));
    }
  }

  /** Entry i of file f is still there, at its place. */
  ghost predicate Kept(st: State, st': State, f: nat, i: nat)
    requires f in st.log && i < |st.log[f]|
  {
    f in st'.log && f in st'.store.disk && i < |st'.log[f]| && st'.log[f][i] == st.log[f][i]
  }

  /** What a truncation keeps: every entry of a guarded file, and no other. */
  ghost predicate Retains(st: State, st': State, mint: Int64) {
    forall f, i: nat | f in st.log && i < |st.log[f]| ::
      Kept(st, st', f, i) <==> !st.store.maxtSet || Guarded(st.store, f, mint)
  }

  lemma TruncateRetains(c: Config, st: State, mint: Int64)
    requires Inv(c, st)
    ensures Wf(st) && Retains(st, Truncate(st, mint), mint)
  {
    CutGrows(c, st);
    hide Inv, Truncate, Kept, Guarded;
    forall f, i: nat | f in st.log && i < |st.log[f]|
      ensures Kept(st, Truncate(st, mint), f, i) <==> !st.store.maxtSet || Guarded(st.store, f, mint)
    {
      KeptIff(c, st, mint, f, i);
    }
  }

  lemma KeptIff(c: Config, st: State, mint: Int64, f: nat, i: nat)
    requires Inv(c, st) && f in st.log && i < |st.log[f]|
    ensures Wf(st) && (Kept(st, Truncate(st, mint), f, i) <==> !st.store.maxtSet || Guarded(st.store, f, mint))
  {
    SettledHas(c, st, f);
    hide Inv, Settled, Removed, Guarded;
    RemovedIff(st.store, mint, f);
  }

  lemma SettledHas(c: Config, st: State, f: nat)
    requires Inv(c, st) && f in st.log
    ensures Wf(st) && f in st.store.disk && f in st.store.mapped
    ensures f in Settled(st).store.disk && f in Settled(st).log && st.log[f] <= Settled(st).log[f]
  {
    SettledKeeps(c, st);
    hide Settled, CurrentOk;
  }

  /** No entry that reaches mint is lost. */
  ghost predicate ReachingKept(st: State, st': State, mint: Int64) {
    forall f, i: nat | f in st.log && i < |st.log[f]| && st.log[f][i].maxt >= mint :: Kept(st, st', f, i)
  }

  ghost predicate AllGuarded(st: State) {
    forall f, i: nat | f in st.log && i < |st.log[f]| :: Guarded(st.store, f, st.log[f][i].maxt)
  }

  ghost predicate TruncateSafe(st: State)
    requires Wf(st)
  {
    forall mint :: ReachingKept(st, Truncate(st, mint), mint)
  }

  /**
   Truncate with any mint keeps every chunk that reaches mint, if and only if for every chunk its own file or an
   earlier one is the current file or was recorded to reach as far as the chunk.
   */
  lemma TruncateSafeIff(c: Config, st: State)
    requires Inv(c, st) && st.store.maxtSet
    ensures Wf(st) && (TruncateSafe(st) <==> AllGuarded(st))
  {
    CutGrows(c, st);
    hide Inv, AllGuarded, TruncateSafe, Guarded;
    if AllGuarded(st) {
      GuardedSafe(c, st);
    }
    if TruncateSafe(st) {
      forall f, i: nat | f in st.log && i < |st.log[f]| ensures Guarded(st.store, f, st.log[f][i].maxt) {
        SafeGuarded(c, st, f, i);
      }
    }
  }

  lemma GuardedSafe(c: Config, st: State)
    requires Inv(c, st) && Wf(st) && AllGuarded(st)
    ensures TruncateSafe(st)
  {
    hide Inv, Truncate, Retains, ReachingKept, AllGuarded;
    forall mint ensures ReachingKept(st, Truncate(st, mint), mint) {
      TruncateRetains(c, st, mint);
      GuardedReach(st, Truncate(st, mint), mint);
    }
  }

  lemma SafeGuarded(c: Config, st: State, f: nat, i: nat)
    requires Inv(c, st) && Wf(st) && TruncateSafe(st) && st.store.maxtSet && f in st.log && i < |st.log[f]|
    ensures Guarded(st.store, f, st.log[f][i].maxt)
  {
    hide Inv, Truncate, Retains, ReachingKept, Guarded;
    var mint := st.log[f][i].maxt;
    TruncateRetains(c, st, mint);
    assert ReachingKept(st, Truncate(st, mint), mint);
    ReachGuarded(st, Truncate(st, mint), f, i);
  }

  lemma GuardedReach(st: State, st': State, mint: Int64)
    requires Retains(st, st', mint) && AllGuarded(st)
    ensures ReachingKept(st, st', mint)
  {
    hide Kept, Guarded;
    forall f, i: nat | f in st.log && i < |st.log[f]| && st.log[f][i].maxt >= mint ensures Kept(st, st', f, i) {
      GuardedBelow(st.store, f, mint, st.log[f][i].maxt);
    }
  }

  lemma ReachGuarded(st: State, st': State, f: nat, i: nat)
    requires st.store.maxtSet && f in st.log && i < |st.log[f]|
    requires Retains(st, st', st.log[f][i].maxt) && ReachingKept(st, st', st.log[f][i].maxt)
    ensures Guarded(st.store, f, st.log[f][i].maxt)
  {
    hide Kept, Guarded;
  }

  lemma GuardedBelow(s: Store, f: nat, mint: Int64, maxt: Int64)
    requires mint <= maxt && Guarded(s, f, maxt)
    ensures Guarded(s, f, mint)
  {
  }

  /** Recorded maxts that bound the chunks are enough. */
  lemma BoundedIsGuarded(st: State, f: nat, i: nat)
    requires Bounded(st, f) && i < |st.log[f]|
    ensures Guarded(st.store, f, st.log[f][i].maxt)
  {
    assert st.log[f][i] in st.log[f];
  }

  /** An entry of a file whose recorded maxt bounds it stays readable under its reference. */
  lemma TruncateHolds(c: Config, st: State, mint: Int64, file: nat, ref: UInt64, e: Entry)
    requires Inv(c, st) && Bounded(st, file) && HeldIn(c, st, file, ref, e) && e.maxt >= mint
    ensures Wf(st) && HeldIn(c, Truncate(st, mint), file, ref, e)
  {
    hide Inv, Bounded, Settled, Truncate, Offset, ChunkRef, Removed, Guarded;
    var i: nat :| IsEntry(c, st.log, file, i, ref, e);
    BoundedIsGuarded(st, file, i);
    GuardedBelow(st.store, file, mint, e.maxt);
    KeptIff(c, st, mint, file, i);
    TruncatedFile(c, st, mint, file);
    var es, es' := st.log[file], Truncate(st, mint).log[file];
    assert es' == es + es'[|es|..];
    OffsetOfPrefix(c.crc, es, es'[|es|..], i);
    assert IsEntry(c, Truncate(st, mint).log, file, i, ref, e);
  }

  lemma TruncatedFile(c: Config, st: State, mint: Int64, file: nat)
    requires Inv(c, st) && file in st.log
    ensures Wf(st) && (file in Truncate(st, mint).log ==> st.log[file] <= Truncate(st, mint).log[file])
  {
    SettledHas(c, st, file);
    hide Inv, Settled, Removed;
  }

  // ---------------------------------------------------------------- in terms of what was written

  /** Some chunk reaches t. */
  ghost predicate Reaches(es: seq<Entry>, t: Int64) {
    exists e :: e in es && e.maxt >= t
  }

  /** The recorded maxt of a finished file that bounds its chunks is what they reach, from 0 on. */
  lemma RecordedExact(c: Config, st: State, f: nat, t: Int64)
    requires Inv(c, st) && f in st.log && f != st.store.cur && Bounded(st, f)
    ensures f in st.store.mapped && (st.store.mapped[f].maxt >= t <==> t <= 0 || Reaches(st.log[f], t))
  {
    hide MaxtOf, LogOk, HeaderOk, Contiguous, FileBytes, CurrentOk;
    MaxtOfReaches(st.log[f], st.store.mapped[f].maxt);
    MaxtOfReaches(st.log[f], t);
  }

  /** The maxt of the current file always is. */
  lemma CurrentExact(c: Config, st: State, t: Int64)
    requires Inv(c, st) && st.store.open
    ensures st.store.cur in st.log && (st.store.maxt >= t <==> t <= 0 || Reaches(st.log[st.store.cur], t))
  {
    hide MaxtOf, FilesOk, PendingIs, Records, FileBytes;
    MaxtOfReaches(st.log[st.store.cur], t);
  }

  /**
   Which files Truncate removes, in terms of what was written: those up to which no file is the current one and no chunk
   reaches mint, and none if mint is not positive.
   */
  lemma TruncateRemovesIff(c: Config, st: State, mint: Int64, f: nat)
    requires Inv(c, st) && AllBounded(st) && st.log.Keys == st.store.disk.Keys && st.store.maxtSet && f in st.log
    ensures Wf(st)
    ensures f !in Truncate(st, mint).store.disk
            <==> mint > 0 && forall g | g in st.log && g <= f :: g != st.store.cur && !Reaches(st.log[g], mint)
  {
    SettledHas(c, st, f);
    Numbering(c, st);
    hide Inv, Bounded, Settled, Removed, Reaches, Guarded;
    RemovedIff(st.store, mint, f);
    GuardedIff(c, st, mint, f);
  }

  lemma GuardedIff(c: Config, st: State, mint: Int64, f: nat)
    requires Inv(c, st) && AllBounded(st) && st.log.Keys == st.store.disk.Keys && f in st.log
    ensures Guarded(st.store, f, mint)
            <==> mint <= 0 || exists g | g in st.log && g <= f :: g == st.store.cur || Reaches(st.log[g], mint)
  {
    Numbering(c, st);
    hide Inv, Bounded, Reaches, Contiguous, NextFile, Guarded;
    forall g | g in st.log && g != st.store.cur
      ensures st.store.mapped[g].maxt >= mint <==> mint <= 0 || Reaches(st.log[g], mint)
    {
      RecordedExact(c, st, g, mint);
    }
    GuardedBy(st.store, st.log, mint, f);
  }

  lemma GuardedBy(s: Store, log: map<nat, seq<Entry>>, mint: Int64, f: nat)
    requires s.mapped.Keys == log.Keys && f in log
    requires forall g | g in log && g != s.cur :: s.mapped[g].maxt >= mint <==> mint <= 0 || Reaches(log[g], mint)
    ensures Guarded(s, f, mint) <==> mint <= 0 || exists g | g in log && g <= f :: g == s.cur || Reaches(log[g], mint)
  {
    hide Reaches;
  }

  /** However many of the files are deleted in order, the numbers of the others have no gap. */
  ghost predicate NoGaps(keys: set<nat>, removed: seq<nat>) {
    forall n | 0 <= n <= |removed| :: Contiguous(keys - ToSet(removed[..n]))
  }

  lemma NoGapAnywhere(c: Config, st: State, mint: Int64)
    requires Inv(c, st)
    ensures Wf(st) && NoGaps(Settled(st).store.disk.Keys, Removed(st.store, mint))
  {
    hide Inv, Contiguous, Settled, Removed;
    TruncateKeeps(c, st, mint);
    var r := Removed(st.store, mint);
    forall n | 0 <= n <= |r| ensures Contiguous(Settled(st).store.disk.Keys - ToSet(r[..n])) {
      NoGapWhileDeleting(c, st, mint, n);
    }
  }

  /** Everything about one truncation. */
  lemma TruncateFacts(c: Config, st: State, mint: Int64)
    requires Inv(c, st)
    ensures Wf(st) && NoGaps(Settled(st).store.disk.Keys, Removed(st.store, mint))
    ensures var st' := Truncate(st, mint); Inv(c, st') && !st'.store.closed && Retains(st, st', mint)
  {
    assert Inv(c, (Truncate(st, mint))) ==> (!(Truncate(st, mint)).store.closed);
    hide Inv, NoGaps, Retains, Truncate, Removed, Settled;
    NoGapAnywhere(c, st, mint);
    TruncateRetains(c, st, mint);
    TruncateKeeps(c, st, mint);
  }
}
